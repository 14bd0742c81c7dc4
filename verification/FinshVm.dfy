/** The finsh stack machine: components/finsh/finsh_vm.c and the DWORD operations of
    components/finsh/finsh_ops.c, over byte code and a byte-addressed store. */
module FinshVm {
  import opened Lists
  import opened Words

  type Word = x: int | 0 <= x < WRAP
  type Byte = x: int | 0 <= x < 256

  /** The store the program variables live in.  The machine's own stack and text segment are
      separate arrays, so a store through a pointer does not reach them. */
  type Memory = Word -> Byte

  const STACK_MAX: nat := 64
  const TEXT_MAX: nat := 128

  const OP_NOOP: Byte := 0x00
  const OP_ADD: Byte := 0x03
  const OP_SUB: Byte := 0x06
  const OP_DIV: Byte := 0x09
  const OP_MOD: Byte := 0x0C
  const OP_MUL: Byte := 0x0F
  const OP_AND: Byte := 0x12
  const OP_OR: Byte := 0x15
  const OP_XOR: Byte := 0x18
  const OP_BITWISE: Byte := 0x1B
  const OP_SHL: Byte := 0x1E
  const OP_SHR: Byte := 0x21
  const OP_LD: Byte := 0x24
  const OP_LD_VALUE: Byte := 0x27
  const OP_ST: Byte := 0x2A
  const OP_POP: Byte := 0x2B
  const OP_LD_STACK: Byte := 0x2F

  // ----- little-endian words in bytes -----

  function Byte0(w: Word): Byte { w % 256 }
  function Byte1(w: Word): Byte { w / 256 % 256 }
  function Byte2(w: Word): Byte { w / 256 / 256 % 256 }
  function Byte3(w: Word): Byte { w / 256 / 256 / 256 }

  /** The first byte is the least significant. */
  function Join(a: Byte, b: Byte, c: Byte, d: Byte): Word { a + 256 * b + 65536 * c + 16777216 * d }

  function Set32(w: Word): (bytes: seq<Byte>) {
    [Byte0(w), Byte1(w), Byte2(w), Byte3(w)]
  }

  function Get32(bytes: seq<Byte>): Word
    requires |bytes| == 4
  {
    Join(bytes[0], bytes[1], bytes[2], bytes[3])
  }

  /** Every operand written by the compiler is read back unchanged by the machine. */
  lemma Get32Set32(w: Word)
    ensures Get32(Set32(w)) == w
  {
    JoinBytes(w);
  }

  lemma JoinBytes(w: Word)
    ensures Join(Byte0(w), Byte1(w), Byte2(w), Byte3(w)) == w
  {
  }

  /** Addresses wrap around. */
  function At(a: Word, k: nat): Word { (a + k) % WRAP }

  function Load32(mem: Memory, a: Word): Word {
    Join(mem(a), mem(At(a, 1)), mem(At(a, 2)), mem(At(a, 3)))
  }

  function Store32(mem: Memory, a: Word, w: Word): Memory {
    (x: Word) => if x == a then Byte0(w) else if x == At(a, 1) then Byte1(w) else if x == At(a, 2) then Byte2(w)
                 else if x == At(a, 3) then Byte3(w) else mem(x)
  }

  /** The reload after a store yields the stored word, at every address (the word may straddle
      the end of the address space), and no other byte changes. */
  lemma LoadAfterStore(mem: Memory, a: Word, w: Word)
    ensures Load32(Store32(mem, a, w), a) == w
    ensures forall x: Word :: x !in {a, At(a, 1), At(a, 2), At(a, 3)} ==> Store32(mem, a, w)(x) == mem(x)
  {
    hide Byte0; hide Byte1; hide Byte2; hide Byte3; hide At; hide Join;
    JoinBytes(w);
    AtApart(a);
  }

  /** Words lie in memory least significant byte first, at ascending addresses. */
  lemma LittleEndian(mem: Memory, a: Word, w: Word)
    requires a + 3 < WRAP
    ensures Load32(mem, a) == mem(a) + 256 * mem(a + 1) + 65536 * mem(a + 2) + 16777216 * mem(a + 3)
    ensures var m := Store32(mem, a, w);
            w == m(a) + 256 * m(a + 1) + 65536 * m(a + 2) + 16777216 * m(a + 3)
  {
    assert At(a, 1) == a + 1 && At(a, 2) == a + 2 && At(a, 3) == a + 3;
    hide At; hide Byte0; hide Byte1; hide Byte2; hide Byte3;
    JoinBytes(w);
  }

  lemma AtApart(a: Word)
    ensures At(a, 1) != a && At(a, 2) !in {a, At(a, 1)} && At(a, 3) !in {a, At(a, 1), At(a, 2)}
  {
  }

  // ----- 32-bit signed arithmetic on words -----

  /** Two's complement. */
  function Signed(w: Word): int { if w < 0x8000_0000 then w else w - WRAP }

  function Wrapped(i: int): Word { i % WRAP }

  /** Division of C: the quotient is truncated toward zero. */
  function Truncated(a: int, b: int): int
    requires b != 0
  {
    if a >= 0 then (if b > 0 then a / b else -(a / -b)) else (if b > 0 then -(-a / b) else -a / -b)
  }

  function Sum(a: Word, b: Word): Word { Wrapped(a + b) }

  function Difference(a: Word, b: Word): Word { Wrapped(a - b) }

  function Product(a: Word, b: Word): Word { Wrapped(a * b) }

  function Quotient(a: Word, b: Word): Word
    requires b != 0
  {
    Wrapped(Truncated(Signed(a), Signed(b)))
  }

  function Remainder(a: Word, b: Word): Word
    requires b != 0
  {
    Wrapped(Signed(a) - Signed(b) * Truncated(Signed(a), Signed(b)))
  }

  function ShiftLeft(a: Word, n: Word): Word { Wrapped(a * Pow2(n)) }

  function ShiftRight(a: Word, n: Word): Word {
    Pow2Positive(n);
    Wrapped(Signed(a) / Pow2(n))
  }

  function Inverted(a: Word): Word { WRAP - 1 - a }

  datatype BitOp = AndBit | OrBit | XorBit

  function BitResult(op: BitOp, x: bool, y: bool): bool {
    match op
    case AndBit => x && y
    case OrBit => x || y
    case XorBit => x != y
  }

  /** Bit by bit, from the least significant of `n`. */
  function Bitwise(op: BitOp, a: nat, b: nat, n: nat): (r: nat)
    ensures r < Pow2(n)
  {
    if n == 0 then 0
    else (if BitResult(op, a % 2 == 1, b % 2 == 1) then 1 else 0) + 2 * Bitwise(op, a / 2, b / 2, n - 1)
  }

  function BitwiseWord(op: BitOp, a: Word, b: Word): Word {
    Pow2Table();
    Bitwise(op, a, b, 32)
  }

  // ----- what the operations mean -----

  ghost predicate Representable(i: int) { -0x8000_0000 <= i < 0x8000_0000 }

  /** The word of this signed number, up to a wrap-around of 32 bits. */
  ghost predicate Means(w: Word, i: int) {
    (exists k: int :: Signed(w) == i + k * WRAP) && (Representable(i) ==> Signed(w) == i)
  }

  lemma WrappedMeans(i: int, j: int, k: int)
    requires i == j + k * WRAP
    ensures Means(Wrapped(i), j)
  {
    var q := i / WRAP;
    var n := k - q - (if Wrapped(i) < 0x8000_0000 then 0 else 1);
    assert Signed(Wrapped(i)) == j + n * WRAP;
  }

  /** Sum, difference and product are those of the signed numbers, up to a wrap-around. */
  lemma ArithmeticMeans(a: Word, b: Word)
    ensures Means(Sum(a, b), Signed(a) + Signed(b))
    ensures Means(Difference(a, b), Signed(a) - Signed(b))
    ensures Means(Product(a, b), Signed(a) * Signed(b))
  {
    hide Means;
    var (i, j) := (if a < 0x8000_0000 then 0 else 1, if b < 0x8000_0000 then 0 else 1);
    assert a == Signed(a) + i * WRAP && b == Signed(b) + j * WRAP;
    WrappedMeans(a + b, Signed(a) + Signed(b), i + j);
    WrappedMeans(a - b, Signed(a) - Signed(b), i - j);
    ProductWraps(Signed(a), Signed(b), i, j);
    WrappedMeans(a * b, Signed(a) * Signed(b), Signed(a) * j + i * Signed(b) + i * j * WRAP);
  }

  lemma ProductWraps(x: int, y: int, i: int, j: int)
    ensures (x + i * WRAP) * (y + j * WRAP) == x * y + (x * j + i * y + i * j * WRAP) * WRAP
  {
  }

  /** Division that truncates toward zero, with the sign of the dividend on the remainder. */
  ghost predicate Divides(x: int, y: int, q: int, r: int) {
    x == y * q + r && (if r < 0 then -r else r) < (if y < 0 then -y else y) && (r == 0 || (r < 0 <==> x < 0))
  }

  /** The one quotient that is no word, the least number by -1, wraps around. */
  lemma DivisionMeans(a: Word, b: Word)
    requires b != 0
    ensures var (x, y) := (Signed(a), Signed(b));
            var (q, r) := (Signed(Quotient(a, b)), Signed(Remainder(a, b)));
            if x == -0x8000_0000 && y == -1 then q == x && r == 0 else Divides(x, y, q, r)
  {
    var (x, y) := (Signed(a), Signed(b));
    var t := Truncated(x, y);
    TruncatedIs(x, y);
    if !(x == -0x8000_0000 && y == -1) {
      SignedWrapped(t);
      SignedWrapped(x - y * t);
    }
  }

  lemma SignedWrapped(i: int)
    requires Representable(i)
    ensures Signed(Wrapped(i)) == i
  {
  }

  lemma TruncatedIs(x: int, y: int)
    requires y != 0 && Representable(x)
    ensures var t := Truncated(x, y);
            var r := x - y * t;
            && (if r < 0 then -r else r) < (if y < 0 then -y else y) && (r == 0 || (r < 0 <==> x < 0))
            && Representable(r) && (Representable(t) <==> !(x == -0x8000_0000 && y == -1))
  {
    hide Truncated; hide Representable;
    var (m, d) := (if x < 0 then -x else x, if y < 0 then -y else y);
    var q, p := TruncatedParts(x, y, m, d);
    Residue(x, y, q, p, Truncated(x, y), y * Truncated(x, y));
  }

  /** The linear part: `p` is the part of the dividend's size that the quotient `q` covers. */
  lemma Residue(x: int, y: int, q: int, p: int, t: int, u: int)
    requires y != 0 && Representable(x)
    requires var (m, d) := (if x < 0 then -x else x, if y < 0 then -y else y);
             && p <= m < p + d && 0 <= q <= m && (d >= 2 ==> 2 * q <= m) && (d == 1 ==> p == q)
    requires t == (if x < 0 <==> y < 0 then q else -q) && u == if x < 0 then -p else p
    requires p >= 0
    ensures var r := x - u;
            && (if r < 0 then -r else r) < (if y < 0 then -y else y) && (r == 0 || (r < 0 <==> x < 0))
            && Representable(r) && (Representable(t) <==> !(x == -0x8000_0000 && y == -1))
  {
  }

  lemma TruncatedParts(x: int, y: int, m: nat, d: nat) returns (q: int, p: int)
    requires y != 0 && m == (if x < 0 then -x else x) && d == if y < 0 then -y else y
    ensures 0 <= p <= m < p + d && 0 <= q <= m && (d >= 2 ==> 2 * q <= m) && (d == 1 ==> p == q)
    ensures Truncated(x, y) == (if x < 0 <==> y < 0 then q else -q)
    ensures y * Truncated(x, y) == if x < 0 then -p else p
  {
    hide Truncated;
    TruncatedSize(x, y, m, d);
    q, p := Divided(m, d);
    SignedProduct(y, Truncated(x, y), d, q, p);
  }

  lemma Divided(m: nat, d: nat) returns (q: int, p: int)
    requires d > 0
    ensures q == m / d && p == d * q
    ensures 0 <= p <= m < p + d && 0 <= q <= m && (d >= 2 ==> 2 * q <= m) && (d == 1 ==> p == q)
  {
    q := m / d;
    p := d * q;
    FloorIs(m, d);
    QuotientBound(m, d, q);
  }

  lemma SignedProduct(y: int, t: int, d: int, q: int, p: int)
    requires p == d * q && y in {d, -d} && t in {q, -q}
    ensures y == d && t == q ==> y * t == p
    ensures y == -d && t == -q ==> y * t == p
    ensures y == -d && t == q ==> y * t == -p
    ensures y == d && t == -q ==> y * t == -p
  {
    assert (-d) * q == -(d * q);
    assert d * (-q) == -(d * q);
    assert (-d) * (-q) == d * q;
  }

  lemma TruncatedSize(x: int, y: int, m: nat, d: nat)
    requires y != 0 && m == (if x < 0 then -x else x) && d == if y < 0 then -y else y
    ensures Truncated(x, y) == if x < 0 <==> y < 0 then m / d else -(m / d)
  {
    var q: int := m / d;
    if x == 0 {
      assert q == 0;
    } else if x > 0 {
      assert y > 0 ==> Truncated(x, y) == q;
      assert y < 0 ==> Truncated(x, y) == -q;
    } else {
      assert y > 0 ==> Truncated(x, y) == -q;
      assert y < 0 ==> Truncated(x, y) == q;
    }
  }

  lemma QuotientBound(m: nat, d: nat, q: nat)
    requires d > 0 && d * q <= m
    ensures q <= m && (d >= 2 ==> 2 * q <= m) && (d == 1 ==> d * q == q)
  {
    if d >= 2 { assert d * q == 2 * q + (d - 2) * q; }
  }

  /** A left shift multiplies by a power of two, up to a wrap-around; a right shift rounds the quotient down. */
  lemma ShiftsMean(a: Word, n: Word)
    requires n < 32
    ensures Means(ShiftLeft(a, n), Signed(a) * Pow2(n))
    ensures var x := Signed(ShiftRight(a, n)); x * Pow2(n) <= Signed(a) < (x + 1) * Pow2(n)
  {
    hide Means;
    var i := if a < 0x8000_0000 then 0 else 1;
    var (x, p) := (Signed(a), Pow2(n));
    hide Pow2;
    Pow2Positive(n);
    ScaledWord(x, i, p);
    WrappedMeans(a * p, x * p, i * p);
    FloorIs(x, p);
    FloorBound(x, p, x / p);
    SignedWrapped(x / p);
  }

  lemma ScaledWord(x: int, i: int, p: int)
    ensures (x + i * WRAP) * p == x * p + i * p * WRAP
  {
  }

  lemma FloorIs(x: int, p: nat)
    requires p > 0
    ensures p * (x / p) <= x < p * (x / p) + p
  {
  }

  lemma FloorBound(x: int, p: int, q: int)
    requires p > 0 && Representable(x) && p * q <= x < p * q + p
    ensures Representable(q) && q * p <= x < (q + 1) * p
  {
  }

  ghost predicate Bit(a: nat, k: nat)
    decreases k
  {
    if k == 0 then a % 2 == 1 else Bit(a / 2, k - 1)
  }

  /** And, or and exclusive or act on each bit. */
  lemma BitwiseMeans(op: BitOp, a: Word, b: Word, k: nat)
    requires k < 32
    ensures Bit(BitwiseWord(op, a, b), k) <==> BitResult(op, Bit(a, k), Bit(b, k))
  {
    BitwiseBit(op, a, b, 32, k);
  }

  lemma {:induction false} BitwiseBit(op: BitOp, a: nat, b: nat, n: nat, k: nat)
    requires k < n
    ensures Bit(Bitwise(op, a, b, n), k) <==> BitResult(op, Bit(a, k), Bit(b, k))
    decreases n
  {
    var r := Bitwise(op, a, b, n);
    assert r / 2 == Bitwise(op, a / 2, b / 2, n - 1);
    if k > 0 { BitwiseBit(op, a / 2, b / 2, n - 1, k - 1); }
  }

  /** The complement changes every bit, and is the negative less one. */
  lemma InvertedMeans(a: Word, k: nat)
    ensures Signed(Inverted(a)) == -Signed(a) - 1
    ensures k < 32 ==> (Bit(Inverted(a), k) <==> !Bit(a, k))
  {
    Pow2Table();
    if k < 32 { InvertedBit(a, 32, k); }
  }

  lemma {:induction false} InvertedBit(a: nat, n: nat, k: nat)
    requires a < Pow2(n) && k < n
    ensures Bit(Pow2(n) - 1 - a, k) <==> !Bit(a, k)
    decreases n
  {
    var p := Pow2(n - 1);
    assert Pow2(n) == 2 * p;
    hide Pow2;
    HalfComplement(p, a);
    if k > 0 { InvertedBit(a / 2, n - 1, k - 1); }
  }

  lemma HalfComplement(p: nat, a: nat)
    requires a < 2 * p
    ensures a / 2 < p && (2 * p - 1 - a) / 2 == p - 1 - a / 2 && ((2 * p - 1 - a) % 2 == 1 <==> a % 2 != 1)
  {
  }

  datatype BinOp = Add | Sub | Mul | Div | Mod | And | Or | Xor | Shl | Shr

  /** None for a division by zero and a shift by 32 or more, which C leaves undefined.  It also leaves undefined
      a signed overflow, the least number divided by -1 and a left shift of a negative number; these wrap here. */
  function Apply(op: BinOp, a: Word, b: Word): Option<Word> {
    match op
    case Add => Some(Sum(a, b))
    case Sub => Some(Difference(a, b))
    case Mul => Some(Product(a, b))
    case Div => if b == 0 then None else Some(Quotient(a, b))
    case Mod => if b == 0 then None else Some(Remainder(a, b))
    case And => Some(BitwiseWord(AndBit, a, b))
    case Or => Some(BitwiseWord(OrBit, a, b))
    case Xor => Some(BitwiseWord(XorBit, a, b))
    case Shl => if b >= 32 then None else Some(ShiftLeft(a, b))
    case Shr => if b >= 32 then None else Some(ShiftRight(a, b))
  }

  /** What a binary operation is to compute. */
  ghost predicate Computes(op: BinOp, a: Word, b: Word, w: Word) {
    var (x, y) := (Signed(a), Signed(b));
    match op
    case Add => Means(w, x + y)
    case Sub => Means(w, x - y)
    case Mul => Means(w, x * y)
    case Div => if x == -0x8000_0000 && y == -1 then w == a else Divides(x, y, Signed(w), x - y * Signed(w))
    case Mod => if x == -0x8000_0000 && y == -1 then w == 0 else exists q: int :: Divides(x, y, q, Signed(w))
    case And => forall k: nat :: k < 32 ==> (Bit(w, k) <==> Bit(a, k) && Bit(b, k))
    case Or => forall k: nat :: k < 32 ==> (Bit(w, k) <==> Bit(a, k) || Bit(b, k))
    case Xor => forall k: nat :: k < 32 ==> (Bit(w, k) <==> Bit(a, k) != Bit(b, k))
    case Shl => Means(w, x * Pow2(b))
    case Shr => Signed(w) * Pow2(b) <= x < (Signed(w) + 1) * Pow2(b)
  }

  /** The operations compute what C computes on 32-bit signed numbers, and refuse exactly a division by zero and a
      shift by 32 or more. */
  lemma ApplyMeans(op: BinOp, a: Word, b: Word)
    ensures Apply(op, a, b).None? <==> (op in {Div, Mod} && b == 0) || (op in {Shl, Shr} && b >= 32)
    ensures Apply(op, a, b).Some? ==> Computes(op, a, b, Apply(op, a, b).value)
  {
    hide Means; hide Quotient; hide Remainder; hide Sum; hide Difference; hide Product; hide ShiftLeft; hide ShiftRight;
    hide BitwiseWord; hide Bit; hide Pow2;
    ArithmeticMeans(a, b);
    if b != 0 { DivisionMeans(a, b); }
    if b < 32 { ShiftsMean(a, b); }
    forall o: BitOp, k: nat | k < 32 ensures Bit(BitwiseWord(o, a, b), k) <==> BitResult(o, Bit(a, k), Bit(b, k)) {
      BitwiseMeans(o, a, b, k);
    }
    SignedInjective();
  }

  lemma SignedInjective()
    ensures forall a: Word, b: Word {:trigger Signed(a), Signed(b)} :: Signed(a) == Signed(b) ==> a == b
  {
  }

  function OpCode(op: BinOp): Byte {
    match op
    case Add => OP_ADD case Sub => OP_SUB case Mul => OP_MUL case Div => OP_DIV case Mod => OP_MOD
    case And => OP_AND case Or => OP_OR case Xor => OP_XOR case Shl => OP_SHL case Shr => OP_SHR
  }

  function Decode(b: Byte): Option<BinOp> {
    if b == OP_ADD then Some(Add) else if b == OP_SUB then Some(Sub)
    else if b == OP_MUL then Some(Mul) else if b == OP_DIV then Some(Div)
    else if b == OP_MOD then Some(Mod) else if b == OP_AND then Some(And)
    else if b == OP_OR then Some(Or) else if b == OP_XOR then Some(Xor)
    else if b == OP_SHL then Some(Shl) else if b == OP_SHR then Some(Shr) else None
  }

  // ----- the machine -----

  /** Why a run stops: the stack runs empty or out of slots, C leaves the arithmetic undefined, or
      the byte is not one of the DWORD operations (or its operand is cut off). */
  datatype Reason = Underflow | Overflow | Undefined | BadCode

  datatype Machine = Running(stack: seq<Word>, mem: Memory) | Fault(reason: Reason)

  predicate HasOperand(op: Byte) { op == OP_LD || op == OP_LD_VALUE }

  /** The two operations that push; `limit` is the number of stack slots. */
  function LoadOp(limit: nat, op: Byte, operand: Word, m: Machine): Machine {
    if m.Fault? then m
    else if |m.stack| >= limit then Fault(Overflow)
    else m.(stack := m.stack + [if op == OP_LD then operand else Load32(m.mem, operand)])
  }

  /** Stack slots an operation needs below the stack pointer. */
  function Arity(op: Byte): Option<nat> {
    if op == OP_NOOP then Some(0)
    else if op == OP_POP || op == OP_BITWISE || op == OP_LD_STACK then Some(1)
    else if op == OP_ST || Decode(op).Some? then Some(2)
    else None
  }

  function Binary(op: BinOp, m: Machine): Machine
    requires m.Running? && |m.stack| >= 2
  {
    var n := |m.stack|;
    match Apply(op, m.stack[n - 2], m.stack[n - 1])
    case None => Fault(Undefined)
    case Some(w) => m.(stack := m.stack[..n - 2] + [w])
  }

  function StackOp(op: Byte, m: Machine): Machine {
    if m.Fault? then m
    else if Arity(op).None? then Fault(BadCode)
    else if |m.stack| < Arity(op).value then Fault(Underflow)
    else
      var n := |m.stack|;
      if op == OP_NOOP then m
      else if op == OP_POP then m.(stack := m.stack[..n - 1])
      else if op == OP_BITWISE then m.(stack := m.stack[n - 1 := Inverted(m.stack[n - 1])])
      else if op == OP_LD_STACK then m.(stack := m.stack[n - 1 := Load32(m.mem, m.stack[n - 1])])
      else if op == OP_ST then
        m.(stack := m.stack[..n - 1], mem := Store32(m.mem, m.stack[n - 2], m.stack[n - 1]))
      else Binary(Decode(op).value, m)
  }

  /** The meaning of a byte-code text on a machine with `limit` stack slots. */
  function Run(limit: nat, code: seq<Byte>, m: Machine): Machine
    decreases |code|
  {
    if m.Fault? || code == [] then m
    else if HasOperand(code[0]) then
      if |code| < 5 then Fault(BadCode)
      else Run(limit, code[5..], LoadOp(limit, code[0], Get32(code[1..5]), m))
    else Run(limit, code[1..], StackOp(code[0], m))
  }

  function Load(op: Byte, operand: Word): seq<Byte> { [op] + Set32(operand) }

  lemma RunLoad(limit: nat, op: Byte, w: Word, rest: seq<Byte>, m: Machine)
    requires HasOperand(op)
    ensures Run(limit, Load(op, w) + rest, m) == Run(limit, rest, LoadOp(limit, op, w, m))
  {
    var code := Load(op, w) + rest;
    assert code[1..5] == Set32(w) && code[5..] == rest;
    Get32Set32(w);
  }

  lemma RunOp(limit: nat, op: Byte, rest: seq<Byte>, m: Machine)
    requires !HasOperand(op)
    ensures Run(limit, [op] + rest, m) == Run(limit, rest, StackOp(op, m))
  {
    assert ([op] + rest)[1..] == rest;
  }

  lemma RunFault(limit: nat, code: seq<Byte>, reason: Reason)
    ensures Run(limit, code, Fault(reason)) == Fault(reason)
  {
  }

  /** The unused tail of the text segment is zero, and zero is the no-operation. */
  lemma {:induction false} RunPadding(limit: nat, code: seq<Byte>, m: Machine)
    requires forall i :: 0 <= i < |code| ==> code[i] == OP_NOOP
    ensures Run(limit, code, m) == m
  {
    if !m.Fault? && code != [] {
      assert StackOp(code[0], m) == m;
      RunPadding(limit, code[1..], m);
    }
  }

  /** `finsh_vm_run`: the fetch and dispatch loop over the global stack and text arrays. */
  class Vm {
    var stack: array<Word>
    var sp: nat
    var text: array<Byte>
    var pc: nat
    var mem: Memory

    ghost predicate Valid()
      reads this
    {
      stack.Length == STACK_MAX && text.Length == TEXT_MAX && sp <= STACK_MAX
    }

    ghost function State(): Machine
      requires Valid()
      reads this, stack
    {
      Running(stack[..sp], mem)
    }

    constructor (mem: Memory)
      ensures Valid() && fresh(stack) && fresh(text)
      ensures this.mem == mem && sp == 0
      ensures forall i :: 0 <= i < text.Length ==> text[i] == OP_NOOP
    {
      stack := new Word[STACK_MAX](_ => 0);
      text := new Byte[TEXT_MAX](_ => OP_NOOP);
      this.mem := mem;
      sp, pc := 0, 0;
    }

    /** The function called through `op_table` for a code without an operand. */
    method Dispatch(op: Byte) returns (fault: Option<Reason>)
      requires Valid() && !HasOperand(op)
      modifies this`sp, this`mem, stack
      ensures Valid()
      ensures var m := StackOp(op, old(State()));
              if fault.None? then State() == m else m == Fault(fault.value)
    {
      if Arity(op).None? { return Some(BadCode); }
      if sp < Arity(op).value { return Some(Underflow); }
      ghost var before := stack[..sp];
      if op == OP_NOOP {
      } else if op == OP_POP {
        sp := sp - 1;
      } else if op == OP_BITWISE {
        stack[sp - 1] := Inverted(stack[sp - 1]);
      } else if op == OP_LD_STACK {
        stack[sp - 1] := Load32(mem, stack[sp - 1]);
      } else if op == OP_ST {
        mem := Store32(mem, stack[sp - 2], stack[sp - 1]);
        sp := sp - 1;
      } else {
        fault := Compute(Decode(op).value);
        return;
      }
      fault := None;
      assert State().stack == StackOp(op, Running(before, old(mem))).stack;
    }

    /** The two operations that take their operand from the text. */
    method Push(op: Byte) returns (fault: Option<Reason>)
      requires Valid() && HasOperand(op) && pc + 4 <= TEXT_MAX
      modifies this`sp, this`pc, stack
      ensures Valid()
      ensures var m := LoadOp(STACK_MAX, op, Get32(text[old(pc)..old(pc) + 4]), old(State()));
              if fault.None? then State() == m && pc == old(pc) + 4 else m == Fault(fault.value)
    {
      if sp == STACK_MAX { return Some(Overflow); }
      ghost var before := stack[..sp];
      var w := Get32(text[pc..pc + 4]);
      stack[sp] := if op == OP_LD then w else Load32(mem, w);
      sp, pc := sp + 1, pc + 4;
      fault := None;
      assert stack[..sp] == before + [stack[sp - 1]];
    }

    method Compute(op: BinOp) returns (fault: Option<Reason>)
      requires Valid() && sp >= 2
      modifies this`sp, stack
      ensures Valid()
      ensures var m := Binary(op, old(State()));
              if fault.None? then State() == m else m == Fault(fault.value)
      ensures fault.None? ==> sp == old(sp) - 1 && Computes(op, old(stack[sp - 2]), old(stack[sp - 1]), stack[sp - 1])
    {
      hide Apply; hide Computes;
      ApplyMeans(op, stack[sp - 2], stack[sp - 1]);
      var w := Apply(op, stack[sp - 2], stack[sp - 1]);
      if w.None? { return Some(Undefined); }
      stack[sp - 2] := w.value;
      sp := sp - 1;
      fault := None;
      assert State().stack == old(stack[..sp - 2]) + [w.value];
    }

    /** Where the source would run off its stack or call through a bad table entry, the method
        stops and reports the reason instead. */
    method Execute() returns (fault: Option<Reason>)
      requires Valid()
      modifies this`sp, this`pc, this`mem, stack
      ensures Valid()
      ensures var m := Run(STACK_MAX, text[..], Running([], old(mem)));
              if fault.None? then State() == m else m == Fault(fault.value)
    {
      hide StackOp; hide LoadOp; hide Get32; hide Load32;
      ghost var goal := Run(STACK_MAX, text[..], Running([], mem));
      sp, pc := 0, 0;
      assert text[0..] == text[..];
      while pc < TEXT_MAX
        invariant Valid() && pc <= TEXT_MAX
        invariant Run(STACK_MAX, text[pc..], State()) == goal
        decreases TEXT_MAX - pc
      {
        ghost var code := text[pc..];
        var op := text[pc];
        pc := pc + 1;
        assert code[1..] == text[pc..];
        if HasOperand(op) {
          if pc + 4 > TEXT_MAX { return Some(BadCode); }
          assert code[1..5] == text[pc..pc + 4] && code[5..] == text[pc + 4..];
          fault := Push(op);
          if fault.Some? { return; }
        } else {
          fault := Dispatch(op);
          if fault.Some? { return; }
        }
      }
      fault := None;
    }
  }
}
