/** What a chunk of bytecode does: the instructions of lib/svm/svm.c as a function on (ip, stack), and the meaning of
    compiled expressions. `Svm` holds the loop and the growing buffers. */
module Bytecode {
  import opened Bits
  import opened Values

  const OP_NOP: byte := 0x00
  const OP_EXIT: byte := 0x0E
  const OP_RET: byte := 0x0F
  const OP_LDC: byte := 0x10
  const OP_LDI: byte := 0x11
  const OP_POP: byte := 0x1A
  const OP_DUP: byte := 0x1B
  const OP_BNOT: byte := 0x30
  const OP_BAND: byte := 0x31
  const OP_BOR: byte := 0x32
  const OP_BXOR: byte := 0x33
  const OP_NOT: byte := 0x36
  const OP_AND: byte := 0x37
  const OP_OR: byte := 0x38
  const OP_NEG: byte := 0x39
  const OP_ADD: byte := 0x3A
  const OP_SUB: byte := 0x3B
  const OP_MUL: byte := 0x3C
  const OP_EQ: byte := 0x40
  const OP_OUT: byte := 0xA0

  const EXIT_SUCCESS := 0
  const EXIT_FAILURE := 1

  /** The result register of an instruction: a value, piNotImpl, signed overflow (undefined in C), or an operation
      outside this model (double arithmetic, DIV, POW, REM). */
  datatype Answer = Value(value: nat) | NotImplemented | Overflow | Unmodelled

  datatype Outcome =
    | Exited(code: int, stack: seq<nat>)
    | Failed(answer: Answer)
    | Underflow
    | PastEnd
    | NoSuchConstant

  // ---- Operators ----

  function ToUInt(i: SInt32): UInt32 { i % WORD32 }

  predicate Fits(i: int) { -0x8000_0000 <= i < 0x8000_0000 }

  function Signed(i: int): Answer { if Fits(i) then Value(PiSInt(i)) else Overflow }

  function BitNot(w: nat): Answer {
    if TypeOf(w) == UINT then Value(PiUInt(WORD32 - 1 - AsUInt(w)))
    else if TypeOf(w) == SINT then Value(PiSInt(-1 - AsSInt(w)))
    else NotImplemented
  }

  function Word32(op: BitOp, a: UInt32, b: UInt32): UInt32 {
    Below32(op, a, b);
    Bitwise(op, a, b)
  }

  lemma Below32(op: BitOp, a: UInt32, b: UInt32)
    ensures Bitwise(op, a, b) < WORD32
  {
    ExpValues();
    Below(op, a, b, 32);
  }

  function Bitwise32(op: BitOp, l: nat, r: nat): Answer {
    match (TypeOf(l), TypeOf(r))
    case (UINT, UINT) => Value(PiUInt(Word32(op, AsUInt(l), AsUInt(r))))
    case (UINT, SINT) => Value(PiUInt(Word32(op, AsUInt(l), ToUInt(AsSInt(r)))))
    case (SINT, UINT) => Value(PiSInt(Signed32(Word32(op, ToUInt(AsSInt(l)), AsUInt(r)))))
    case (SINT, SINT) => Value(PiSInt(Signed32(Word32(op, ToUInt(AsSInt(l)), ToUInt(AsSInt(r))))))
    case _ => NotImplemented
  }

  function Not(w: nat): Answer {
    match TypeOf(w)
    case NONE => Value(PiBool(true))
    case BOOL => Value(PiBool(!AsBool(w)))
    case CHAR => Value(PiBool(AsChar(w) == 0))
    case UINT => Value(PiBool(AsUInt(w) == 0))
    case SINT => Value(PiBool(AsSInt(w) == 0))
    case REAL => Value(PiBool(w % SIGN == 0)) // the two zeros
    case _ => NotImplemented
  }

  function Neg(w: nat): Answer {
    match TypeOf(w)
    case UINT => Signed(0 - Signed32(AsUInt(w)))
    case SINT => Signed(0 - AsSInt(w))
    case REAL => Unmodelled
    case _ => NotImplemented
  }

  datatype ArithOp = ADD | SUB | MUL

  function Exactly(op: ArithOp, a: int, b: int): int {
    match op
    case ADD => a + b
    case SUB => a - b
    case MUL => a * b
  }

  /** Unsigned operands wrap; the type of the left operand decides; MUL has no case for characters. */
  function Arith(op: ArithOp, l: nat, r: nat): Answer {
    match (TypeOf(l), TypeOf(r))
    case (UINT, UINT) => Value(PiUInt(Exactly(op, AsUInt(l), AsUInt(r)) % WORD32))
    case (SINT, SINT) => Signed(Exactly(op, AsSInt(l), AsSInt(r)))
    case (CHAR, CHAR) => if op == MUL then NotImplemented else Value(PiChar(Signed8(Exactly(op, AsChar(l), AsChar(r)))))
    case (CHAR, UINT) =>
      if op == MUL then NotImplemented else Value(PiChar(Signed8(Exactly(op, AsChar(l), Signed8(AsUInt(r))))))
    case (CHAR, SINT) =>
      if op == MUL then NotImplemented else Value(PiChar(Signed8(Exactly(op, AsChar(l), Signed8(AsSInt(r))))))
    case (UINT, SINT) => Value(PiUInt(Exactly(op, AsUInt(l), ToUInt(AsSInt(r))) % WORD32))
    case (SINT, UINT) => Signed(Exactly(op, AsSInt(l), Signed32(AsUInt(r))))
    case (REAL, REAL) => Unmodelled
    case (UINT, REAL) => Unmodelled
    case (SINT, REAL) => Unmodelled
    case (REAL, UINT) => Unmodelled
    case (REAL, SINT) => Unmodelled
    case _ => NotImplemented
  }

  predicate IsUnary(op: byte) { op == OP_BNOT || op == OP_NOT || op == OP_NEG }

  function Unary(op: byte, w: nat): Answer
    requires IsUnary(op)
  {
    if op == OP_BNOT then BitNot(w) else if op == OP_NOT then Not(w) else Neg(w)
  }

  predicate IsBinary(op: byte) { 0x31 <= op <= 0x33 || op == OP_AND || op == OP_OR || 0x3A <= op <= 0x3F }

  function Binary(op: byte, l: nat, r: nat): Answer
    requires IsBinary(op)
  {
    if op == OP_BAND then Bitwise32(BitOp.AND, l, r)
    else if op == OP_BOR then Bitwise32(BitOp.OR, l, r)
    else if op == OP_BXOR then Bitwise32(BitOp.XOR, l, r)
    else if op == OP_AND then Value(PiBool(IsTrue(l) && IsTrue(r)))
    else if op == OP_OR then Value(PiBool(IsTrue(l) || IsTrue(r)))
    else if op == OP_ADD then Arith(ADD, l, r)
    else if op == OP_SUB then Arith(SUB, l, r)
    else if op == OP_MUL then Arith(MUL, l, r)
    else Unmodelled
  }

  /** RET: a value of an integer-like type is read as a signed integer. */
  function Return(w: nat, rest: seq<nat>): Outcome {
    if TypeOf(w) <= SINT then Exited(AsSInt(w), rest)
    else if TypeOf(w) == REAL then Failed(Unmodelled)
    else Failed(NotImplemented)
  }

  // ---- Execution ----

  datatype Step = Next(ip: nat, stack: seq<nat>) | Done(outcome: Outcome)

  function Push(ip: nat, stack: seq<nat>, a: Answer): Step {
    if a.Value? then Next(ip, stack + [a.value]) else Done(Failed(a))
  }

  /** LDC and LDI; their operand is at ip. */
  function Load(code: seq<byte>, pool: seq<nat>, op: byte, ip: nat, stack: seq<nat>): Step {
    if ip >= |code| then Done(PastEnd)
    else if op == OP_LDI then Next(ip + 1, stack + [PiUInt(code[ip])])
    else if code[ip] >= |pool| then Done(NoSuchConstant)
    else Next(ip + 1, stack + [pool[code[ip]]])
  }

  /** POP, OUT and DUP. */
  function Shuffle(op: byte, ip: nat, stack: seq<nat>): Step {
    var n := |stack|;
    if n < 1 then Done(Underflow)
    else if op == OP_DUP then Next(ip, stack + [stack[n - 1]])
    else Next(ip, stack[..n - 1])
  }

  function Operation(op: byte, ip: nat, stack: seq<nat>): Step
    requires IsUnary(op) || IsBinary(op)
  {
    var n := |stack|;
    if IsUnary(op) then
      if n < 1 then Done(Underflow) else Push(ip, stack[..n - 1], Unary(op, stack[n - 1]))
    else
      if n < 2 then Done(Underflow) else Push(ip, stack[..n - 2], Binary(op, stack[n - 2], stack[n - 1]))
  }

  /** One turn of pi_SvmLoop. The last element of `stack` is its top. */
  function Turn(code: seq<byte>, pool: seq<nat>, ip: nat, stack: seq<nat>): Step
    requires ip < |code|
  {
    var op, n := code[ip], |stack|;
    if op == OP_NOP || op == OP_EQ then Next(ip + 1, stack)
    else if op == OP_EXIT then Done(if ip + 1 < |code| then Exited(code[ip + 1], stack) else PastEnd)
    else if op == OP_RET then
      Done(if n == 0 then Exited(EXIT_SUCCESS, stack) else Return(stack[n - 1], stack[..n - 1]))
    else if op == OP_LDC || op == OP_LDI then Load(code, pool, op, ip + 1, stack)
    else if op == OP_POP || op == OP_OUT || op == OP_DUP then Shuffle(op, ip + 1, stack)
    else if IsUnary(op) || IsBinary(op) then Operation(op, ip + 1, stack)
    else Done(Exited(EXIT_FAILURE, stack))
  }

  /** Without jumps every turn moves the instruction pointer forward. */
  function Run(code: seq<byte>, pool: seq<nat>, ip: nat, stack: seq<nat>): Outcome
    decreases |code| - ip
  {
    if ip >= |code| then PastEnd
    else
      match Turn(code, pool, ip, stack)
      case Next(ip', stack') => Run(code, pool, ip', stack')
      case Done(outcome) => outcome
  }

  // ---- Expressions ----

  datatype Operator = Arithmetic(arith: ArithOp) | BitByBit(bits: BitOp)

  datatype Prefix = COMPLEMENT | NEGATE

  /** `Twice` copies its operand and combines it with the copy; `First` evaluates two expressions and drops the second,
      printing it if asked. */
  datatype Expr =
    | Imm(immediate: byte)
    | Const(constant: UInt32)
    | SignedConst(signed: SInt32)
    | Un(prefix: Prefix, operand: Expr)
    | Bin(op: Operator, left: Expr, right: Expr)
    | Twice(op: Operator, operand: Expr)
    | First(left: Expr, right: Expr, printed: bool)

  function OpCode(op: Operator): byte {
    match op
    case Arithmetic(ADD) => OP_ADD
    case Arithmetic(SUB) => OP_SUB
    case Arithmetic(MUL) => OP_MUL
    case BitByBit(AND) => OP_BAND
    case BitByBit(OR) => OP_BOR
    case BitByBit(XOR) => OP_BXOR
  }

  function PrefixCode(op: Prefix): byte {
    match op
    case COMPLEMENT => OP_BNOT
    case NEGATE => OP_NEG
  }

  /** The constants of an expression, boxed, from left to right. */
  function Consts(e: Expr): seq<nat> {
    match e
    case Imm(_) => []
    case Const(u) => [PiUInt(u)]
    case SignedConst(i) => [PiSInt(i)]
    case Un(_, a) => Consts(a)
    case Bin(_, l, r) => Consts(l) + Consts(r)
    case Twice(_, a) => Consts(a)
    case First(l, r, _) => Consts(l) + Consts(r)
  }

  function DropCode(printed: bool): byte { if printed then OP_OUT else OP_POP }

  /** The postfix code of an expression whose first constant gets index k; an index is cut to one byte. */
  function Postfix(e: Expr, k: nat): seq<byte> {
    match e
    case Imm(b) => [OP_LDI, b]
    case Const(_) => [OP_LDC, k % 256]
    case SignedConst(_) => [OP_LDC, k % 256]
    case Un(op, a) => Postfix(a, k) + [PrefixCode(op)]
    case Bin(op, l, r) => Postfix(l, k) + Postfix(r, k + |Consts(l)|) + [OpCode(op)]
    case Twice(op, a) => Postfix(a, k) + [OP_DUP, OpCode(op)]
    case First(l, r, printed) => Postfix(l, k) + Postfix(r, k + |Consts(l)|) + [DropCode(printed)]
  }

  function Combine(op: Operator, a: int, b: int): int {
    match op
    case Arithmetic(o) => Exactly(o, a, b)
    case BitByBit(o) => Bitwise(o, a % WORD32, b % WORD32)
  }

  function Prefixed(op: Prefix, a: int): int {
    match op
    case COMPLEMENT => -1 - a
    case NEGATE => -a
  }

  /** The value of an expression over the integers; bitwise operators work on 32 bits. */
  function Meaning(e: Expr): int {
    match e
    case Imm(b) => b
    case Const(u) => u
    case SignedConst(i) => i
    case Un(op, a) => Prefixed(op, Meaning(a))
    case Bin(op, l, r) => Combine(op, Meaning(l), Meaning(r))
    case Twice(op, a) => Combine(op, Meaning(a), Meaning(a))
    case First(l, _, _) => Meaning(l)
  }

  /** The left operand decides the type, and negation makes it signed. */
  predicate IsSigned(e: Expr) {
    match e
    case Imm(_) => false
    case Const(_) => false
    case SignedConst(_) => true
    case Un(op, a) => op == NEGATE || IsSigned(a)
    case Bin(_, l, _) => IsSigned(l)
    case Twice(_, a) => IsSigned(a)
    case First(l, _, _) => IsSigned(l)
  }

  predicate BinOverflows(op: Operator, signed: bool, a: int, b: int) {
    op.Arithmetic? && signed && !Fits(Exactly(op.arith, Signed32(a), Signed32(b)))
  }

  predicate UnOverflows(op: Prefix, a: int) { op == NEGATE && Signed32(a) == -0x8000_0000 }

  /** Some signed operation leaves the signed integers. */
  predicate Overflows(e: Expr) {
    match e
    case Imm(_) => false
    case Const(_) => false
    case SignedConst(_) => false
    case Un(op, a) => Overflows(a) || UnOverflows(op, Meaning(a))
    case Bin(op, l, r) => Overflows(l) || Overflows(r) || BinOverflows(op, IsSigned(l), Meaning(l), Meaning(r))
    case Twice(op, a) => Overflows(a) || BinOverflows(op, IsSigned(a), Meaning(a), Meaning(a))
    case First(l, r, _) => Overflows(l) || Overflows(r)
  }

  /** A number as a boxed integer of 32 bits. */
  function Boxed(signed: bool, a: int): nat { if signed then PiSInt(Signed32(a)) else PiUInt(a % WORD32) }

  lemma Congruent(op: ArithOp, a: int, b: int)
    ensures Exactly(op, a % WORD32, b % WORD32) % WORD32 == Exactly(op, a, b) % WORD32
  {
    SumCongruent(a, b, WORD32);
    DifferenceCongruent(a, b, WORD32);
    ProductCongruent(a, b, WORD32);
  }

  lemma SumCongruent(a: int, b: int, m: int)
    requires m > 0
    ensures (a % m + b % m) % m == (a + b) % m
  {
    var q, x, p, y := a / m, a % m, b / m, b % m;
    assert a == m * q + x && b == m * p + y;
    Distribute(m, q, p);
    assert a + b == m * (q + p) + (x + y);
    ShiftMod(x + y, m, q + p);
  }

  lemma DifferenceCongruent(a: int, b: int, m: int)
    requires m > 0
    ensures (a % m - b % m) % m == (a - b) % m
  {
    var q, x, p, y := a / m, a % m, b / m, b % m;
    assert a == m * q + x && b == m * p + y;
    Distribute(m, q, p);
    assert a - b == m * (q - p) + (x - y);
    ShiftMod(x - y, m, q - p);
  }

  lemma Distribute(m: int, q: int, p: int)
    ensures m * (q + p) == m * q + m * p && m * (q - p) == m * q - m * p
  {
  }

  lemma ProductCongruent(a: int, b: int, m: int)
    requires m > 0
    ensures (a % m) * (b % m) % m == a * b % m
  {
    var x, y, q, p := a % m, b % m, a / m, b / m;
    assert a == m * q + x && b == m * p + y;
    Expand(m, q, x, p, y);
    ShiftMod(x * y, m, q * (m * p + y) + x * p);
  }

  lemma Expand(m: int, q: int, x: int, p: int, y: int)
    ensures (m * q + x) * (m * p + y) == m * (q * (m * p + y) + x * p) + x * y
  {
    var b := m * p + y;
    assert (m * q + x) * b == m * (q * b) + x * b;
    assert x * b == m * (x * p) + x * y;
  }

  lemma ShiftMod(i: int, m: int, k: int)
    requires m > 0
    ensures (m * k + i) % m == i % m
  {
    assert i == m * (i / m) + i % m;
    Quotient(m * k + i, m, k + i / m, i % m);
  }

  // ---- What single instructions compute ----

  /** ADD, SUB and MUL on unsigned values: the exact result modulo 2^32. */
  lemma ArithmeticMeans(op: ArithOp, a: int, b: int)
    ensures IsBinary(OpCode(Arithmetic(op)))
    ensures Binary(OpCode(Arithmetic(op)), PiUInt(a % WORD32), PiUInt(b % WORD32)) ==
            Value(PiUInt(Exactly(op, a, b) % WORD32))
  {
    hide TypeOf, PiUInt, AsUInt, Exactly, Bitwise32;
    UIntRoundTrip(a % WORD32);
    UIntRoundTrip(b % WORD32);
    Congruent(op, a, b);
  }

  /** The same on signed values: the exact result, or signed overflow if and only if it does not fit. */
  lemma SignedArithmeticMeans(op: ArithOp, a: SInt32, b: SInt32)
    ensures IsBinary(OpCode(Arithmetic(op)))
    ensures Binary(OpCode(Arithmetic(op)), PiSInt(a), PiSInt(b)) ==
            if Fits(Exactly(op, a, b)) then Value(PiSInt(Exactly(op, a, b))) else Overflow
  {
    hide TypeOf, PiSInt, AsSInt, Exactly, Bitwise32, Fits;
    SIntRoundTrip(a);
    SIntRoundTrip(b);
  }

  /** BAND, BOR and BXOR on two integers work on their 32-bit patterns, and the left operand decides the type. */
  lemma BitwiseMeans(op: BitOp, a: int, b: int)
    requires 0 <= a < WORD32 && 0 <= b < WORD32
    ensures IsBinary(OpCode(BitByBit(op))) && Bitwise(op, a, b) < WORD32
    ensures Binary(OpCode(BitByBit(op)), PiUInt(a), PiUInt(b)) == Value(PiUInt(Bitwise(op, a, b)))
    ensures Binary(OpCode(BitByBit(op)), PiUInt(a), PiSInt(Signed32(b))) == Value(PiUInt(Bitwise(op, a, b)))
    ensures Binary(OpCode(BitByBit(op)), PiSInt(Signed32(a)), PiUInt(b)) == Value(PiSInt(Signed32(Bitwise(op, a, b))))
    ensures Binary(OpCode(BitByBit(op)), PiSInt(Signed32(a)), PiSInt(Signed32(b))) ==
            Value(PiSInt(Signed32(Bitwise(op, a, b))))
  {
    hide TypeOf, PiUInt, PiSInt, AsUInt, AsSInt, Bitwise, Arith, IsTrue;
    UIntRoundTrip(a);
    UIntRoundTrip(b);
    SIntRoundTrip(Signed32(a));
    SIntRoundTrip(Signed32(b));
    assert ToUInt(Signed32(a)) == a && ToUInt(Signed32(b)) == b;
    Below32(op, a, b);
  }

  /** BNOT complements all 32 bits. */
  lemma ComplementMeans(u: UInt32)
    ensures BitNot(PiUInt(u)) == Value(PiUInt(WORD32 - 1 - u))
    ensures BitNot(PiSInt(Signed32(u))) == Value(PiSInt(Signed32(WORD32 - 1 - u)))
    ensures Xor(u, WORD32 - 1) == WORD32 - 1 - u
  {
    hide TypeOf, PiUInt, PiSInt, AsUInt, AsSInt, Bitwise, Exp2;
    UIntRoundTrip(u);
    SIntRoundTrip(Signed32(u));
    ExpValues();
    XorOnes(u, 32);
  }

  /** NOT tests for zero. */
  lemma NotMeans(u: UInt32)
    ensures Not(PiUInt(u)) == Not(PiSInt(Signed32(u))) == Value(PiBool(u == 0))
  {
    hide TypeOf, PiUInt, PiSInt, PiBool, AsUInt, AsSInt;
    UIntRoundTrip(u);
    SIntRoundTrip(Signed32(u));
  }

  /** NEG negates, and overflows exactly on the least integer. */
  lemma NegMeans(i: SInt32)
    ensures Neg(PiSInt(i)) == Neg(PiUInt(ToUInt(i)))
    ensures Neg(PiSInt(i)) == Overflow <==> i == -0x8000_0000
    ensures forall n: SInt32 :: n == 0 - i ==> Neg(PiSInt(i)) == Value(PiSInt(n))
  {
    hide TypeOf, PiUInt, PiSInt, AsUInt, AsSInt;
    UIntRoundTrip(ToUInt(i));
    SIntRoundTrip(i);
  }

  /** AND and OR of two unsigned values are those of their truth. */
  lemma LogicMeans(a: UInt32, b: UInt32)
    ensures Binary(OP_AND, PiUInt(a), PiUInt(b)) == Value(PiBool(a != 0 && b != 0))
    ensures Binary(OP_OR, PiUInt(a), PiUInt(b)) == Value(PiBool(a != 0 || b != 0))
  {
    hide TypeOf, PiUInt, PiBool, IsTrue, Arith, Bitwise32;
    UIntRoundTrip(a);
    UIntRoundTrip(b);
  }

  /** Numbers that agree modulo 2^32 are the same signed integer. */
  lemma SignedCongruent(op: ArithOp, a: int, b: int)
    ensures Signed32(Exactly(op, Signed32(a), Signed32(b))) == Signed32(Exactly(op, a, b))
  {
    hide Exactly;
    Congruent(op, a, b);
    Congruent(op, Signed32(a), Signed32(b));
  }

  /** ADD, SUB and MUL on integers of either type. */
  lemma ArithMeans(op: ArithOp, s: bool, t: bool, a: int, b: int)
    ensures Arith(op, Boxed(s, a), Boxed(t, b)) ==
      if s && !Fits(Exactly(op, Signed32(a), Signed32(b))) then Overflow else Value(Boxed(s, Exactly(op, a, b)))
  {
    hide TypeOf, PiUInt, PiSInt, AsUInt, AsSInt, Exactly;
    UIntRoundTrip(a % WORD32);
    SIntRoundTrip(Signed32(a));
    UIntRoundTrip(b % WORD32);
    SIntRoundTrip(Signed32(b));
    Congruent(op, a, b);
    SignedCongruent(op, a, b);
    assert ToUInt(Signed32(b)) == b % WORD32 && Signed32(b % WORD32) == Signed32(b);
    assert Fits(Exactly(op, Signed32(a), Signed32(b))) ==>
      Signed32(Exactly(op, Signed32(a), Signed32(b))) == Exactly(op, Signed32(a), Signed32(b));
  }

  /** One binary instruction on two integers of either type. */
  lemma BinaryMeans(op: Operator, s: bool, t: bool, a: int, b: int)
    ensures IsBinary(OpCode(op))
    ensures Binary(OpCode(op), Boxed(s, a), Boxed(t, b)) ==
      if BinOverflows(op, s, a, b) then Overflow else Value(Boxed(s, Combine(op, a, b)))
  {
    hide Boxed, Bitwise, Exactly, Arith, Bitwise32, IsTrue, Fits;
    match op
    case Arithmetic(o) =>
      ArithMeans(o, s, t, a, b);
    case BitByBit(o) =>
      BitwiseBoxed(o, s, t, a, b);
  }

  lemma BitwiseBoxed(op: BitOp, s: bool, t: bool, a: int, b: int)
    ensures Binary(OpCode(BitByBit(op)), Boxed(s, a), Boxed(t, b)) ==
            Value(Boxed(s, Combine(BitByBit(op), a, b)))
  {
    hide PiUInt, PiSInt, Bitwise, Binary;
    BitwiseMeans(op, a % WORD32, b % WORD32);
    assert Signed32(a % WORD32) == Signed32(a) && Signed32(b % WORD32) == Signed32(b);
  }

  /** One prefix instruction on an integer of either type. */
  lemma PrefixMeans(op: Prefix, s: bool, a: int)
    ensures IsUnary(PrefixCode(op))
    ensures Unary(PrefixCode(op), Boxed(s, a)) ==
      if UnOverflows(op, a) then Overflow else Value(Boxed(op == NEGATE || s, Prefixed(op, a)))
  {
    hide Boxed, BitNot, Neg, Not, Signed32;
    match op
    case COMPLEMENT => ComplementBoxed(s, a);
    case NEGATE => NegBoxed(s, a);
  }

  lemma ComplementBoxed(s: bool, a: int)
    ensures BitNot(Boxed(s, a)) == Value(Boxed(s, -1 - a))
  {
    hide PiUInt, PiSInt, BitNot;
    ComplementMeans(a % WORD32);
    assert Signed32(a % WORD32) == Signed32(a);
    assert Signed32(WORD32 - 1 - a % WORD32) == Signed32(-1 - a);
  }

  lemma NegBoxed(s: bool, a: int)
    ensures Neg(Boxed(s, a)) == if Signed32(a) == -0x8000_0000 then Overflow else Value(Boxed(true, -a))
  {
    hide PiUInt, PiSInt, Neg, Signed32, ToUInt;
    NegMeans(Signed32(a));
    SignedNeg(a);
  }

  lemma SignedNeg(a: int)
    ensures ToUInt(Signed32(a)) == a % WORD32
    ensures Signed32(a) != -0x8000_0000 ==> Signed32(-a) == 0 - Signed32(a)
  {
  }

  // ---- Compiled expressions ----

  lemma RunNext(code: seq<byte>, pool: seq<nat>, ip: nat, stack: seq<nat>, ip': nat, stack': seq<nat>)
    requires ip < |code| && Turn(code, pool, ip, stack) == Next(ip', stack')
    ensures Run(code, pool, ip, stack) == Run(code, pool, ip', stack')
  {
    hide Turn;
  }

  lemma RunImm(b: byte, code: seq<byte>, pool: seq<nat>, ip: nat, stack: seq<nat>)
    requires ip + 1 < |code| && code[ip] == OP_LDI && code[ip + 1] == b
    ensures Run(code, pool, ip, stack) == Run(code, pool, ip + 2, stack + [PiUInt(b)])
  {
    hide PiUInt, Run;
    RunNext(code, pool, ip, stack, ip + 2, stack + [PiUInt(b)]);
  }

  lemma RunConst(code: seq<byte>, pool: seq<nat>, ip: nat, stack: seq<nat>, k: nat)
    requires ip + 1 < |code| && code[ip] == OP_LDC && code[ip + 1] == k % 256 && k < 256 && k < |pool|
    ensures Run(code, pool, ip, stack) == Run(code, pool, ip + 2, stack + [pool[k]])
  {
    hide Run;
    RunNext(code, pool, ip, stack, ip + 2, stack + [pool[k]]);
  }

  lemma RunFails(code: seq<byte>, pool: seq<nat>, ip: nat, stack: seq<nat>, outcome: Outcome)
    requires ip < |code| && Turn(code, pool, ip, stack) == Done(outcome)
    ensures Run(code, pool, ip, stack) == outcome
  {
    hide Turn;
  }

  lemma RunBin(op: Operator, s: bool, t: bool, a: int, b: int, code: seq<byte>, pool: seq<nat>, ip: nat,
               stack: seq<nat>)
    requires ip < |code| && code[ip] == OpCode(op)
    ensures Run(code, pool, ip, stack + [Boxed(s, a)] + [Boxed(t, b)]) ==
      if BinOverflows(op, s, a, b) then Failed(Overflow)
      else Run(code, pool, ip + 1, stack + [Boxed(s, Combine(op, a, b))])
  {
    hide Boxed, BinOverflows, Combine, Binary, Unary, Return, Run;
    BinaryMeans(op, s, t, a, b);
    var full := stack + [Boxed(s, a)] + [Boxed(t, b)];
    assert full[..|full| - 2] == stack;
    if BinOverflows(op, s, a, b) {
      RunFails(code, pool, ip, full, Failed(Overflow));
    } else {
      RunNext(code, pool, ip, full, ip + 1, stack + [Boxed(s, Combine(op, a, b))]);
    }
  }

  lemma RunUn(op: Prefix, s: bool, a: int, code: seq<byte>, pool: seq<nat>, ip: nat, stack: seq<nat>)
    requires ip < |code| && code[ip] == PrefixCode(op)
    ensures Run(code, pool, ip, stack + [Boxed(s, a)]) ==
      if UnOverflows(op, a) then Failed(Overflow)
      else Run(code, pool, ip + 1, stack + [Boxed(op == NEGATE || s, Prefixed(op, a))])
  {
    hide Boxed, UnOverflows, Prefixed, Binary, Unary, Return, Run;
    PrefixMeans(op, s, a);
    var full := stack + [Boxed(s, a)];
    assert full[..|full| - 1] == stack;
    if UnOverflows(op, a) {
      RunFails(code, pool, ip, full, Failed(Overflow));
    } else {
      RunNext(code, pool, ip, full, ip + 1, stack + [Boxed(op == NEGATE || s, Prefixed(op, a))]);
    }
  }

  /** The constants of e stand in the pool from index k on, within reach of one byte. */
  ghost predicate Pooled(e: Expr, k: nat, pool: seq<nat>) {
    k + |Consts(e)| <= 256 && k + |Consts(e)| <= |pool| && pool[k..k + |Consts(e)|] == Consts(e)
  }

  /** Executing the postfix code of e fails with signed overflow if some signed operation in it overflows; otherwise it
      pushes the value of e modulo 2^32, with its type, and touches nothing below it. */
  lemma {:induction false} CompiledCode(e: Expr, k: nat, before: seq<byte>, after: seq<byte>, pool: seq<nat>,
                                        stack: seq<nat>)
    requires Pooled(e, k, pool)
    ensures var code := before + Postfix(e, k) + after;
      Run(code, pool, |before|, stack) ==
      if Overflows(e) then Failed(Overflow)
      else Run(code, pool, |before| + |Postfix(e, k)|, stack + [Boxed(IsSigned(e), Meaning(e))])
    decreases e, 1
  {
    hide Boxed, Meaning, IsSigned, Overflows, Run;
    match e
    case Imm(b) => CompiledLeaf(e, k, before, after, pool, stack);
    case Const(_) => CompiledLeaf(e, k, before, after, pool, stack);
    case SignedConst(_) => CompiledLeaf(e, k, before, after, pool, stack);
    case Un(op, a) => CompiledUn(op, a, k, before, after, pool, stack);
    case Bin(op, l, r) => CompiledBin(op, l, r, k, before, after, pool, stack);
    case Twice(op, a) => CompiledTwice(op, a, k, before, after, pool, stack);
    case First(l, r, printed) => CompiledFirst(l, r, printed, k, before, after, pool, stack);
  }

  lemma CompiledLeaf(e: Expr, k: nat, before: seq<byte>, after: seq<byte>, pool: seq<nat>, stack: seq<nat>)
    requires Pooled(e, k, pool) && (e.Imm? || e.Const? || e.SignedConst?)
    ensures !Overflows(e)
    ensures Run(before + Postfix(e, k) + after, pool, |before|, stack) ==
            Run(before + Postfix(e, k) + after, pool, |before| + 2, stack + [Boxed(IsSigned(e), Meaning(e))])
  {
    hide PiUInt, PiSInt, Run;
    var code := before + Postfix(e, k) + after;
    assert code[|before|] == Postfix(e, k)[0] && code[|before| + 1] == Postfix(e, k)[1];
    if e.Imm? {
      RunImm(e.immediate, code, pool, |before|, stack);
    } else {
      assert pool[k] == pool[k..k + 1][0];
      RunConst(code, pool, |before|, stack, k);
    }
  }

  lemma CompiledUn(op: Prefix, a: Expr, k: nat, before: seq<byte>, after: seq<byte>, pool: seq<nat>, stack: seq<nat>)
    requires Pooled(Un(op, a), k, pool)
    ensures var e := Un(op, a); var code := before + Postfix(e, k) + after;
      Run(code, pool, |before|, stack) ==
      if Overflows(e) then Failed(Overflow)
      else Run(code, pool, |before| + |Postfix(e, k)|, stack + [Boxed(IsSigned(e), Meaning(e))])
    decreases Un(op, a), 0
  {
    hide Boxed, UnOverflows, Prefixed, Run;
    var code, p := before + Postfix(Un(op, a), k) + after, Postfix(a, k);
    Grouped(before, p, [], [PrefixCode(op)], after);
    assert p + [] == p && [] + [PrefixCode(op)] + after == [PrefixCode(op)] + after;
    CompiledCode(a, k, before, [PrefixCode(op)] + after, pool, stack);
    RunUn(op, IsSigned(a), Meaning(a), code, pool, |before| + |p|, stack);
  }

  lemma CompiledBin(op: Operator, l: Expr, r: Expr, k: nat, before: seq<byte>, after: seq<byte>, pool: seq<nat>,
                    stack: seq<nat>)
    requires Pooled(Bin(op, l, r), k, pool)
    ensures var e := Bin(op, l, r); var code := before + Postfix(e, k) + after;
      Run(code, pool, |before|, stack) ==
      if Overflows(e) then Failed(Overflow)
      else Run(code, pool, |before| + |Postfix(e, k)|, stack + [Boxed(IsSigned(e), Meaning(e))])
    decreases Bin(op, l, r), 0
  {
    hide Boxed, BinOverflows, Combine, Run, Pooled, Postfix;
    PostfixOf(op, l, r, k);
    var k' := k + |Consts(l)|;
    var code, p, q := before + Postfix(Bin(op, l, r), k) + after, Postfix(l, k), Postfix(r, k');
    PooledParts(op, l, r, k, pool);
    Grouped(before, p, q, [OpCode(op)], after);
    CompiledCode(l, k, before, q + [OpCode(op)] + after, pool, stack);
    CompiledCode(r, k', before + p, [OpCode(op)] + after, pool, stack + [Boxed(IsSigned(l), Meaning(l))]);
    RunBin(op, IsSigned(l), IsSigned(r), Meaning(l), Meaning(r), code, pool, |before| + |p| + |q|, stack);
  }

  lemma CompiledTwice(op: Operator, a: Expr, k: nat, before: seq<byte>, after: seq<byte>, pool: seq<nat>,
                      stack: seq<nat>)
    requires Pooled(Twice(op, a), k, pool)
    ensures var e := Twice(op, a); var code := before + Postfix(e, k) + after;
      Run(code, pool, |before|, stack) ==
      if Overflows(e) then Failed(Overflow)
      else Run(code, pool, |before| + |Postfix(e, k)|, stack + [Boxed(IsSigned(e), Meaning(e))])
    decreases Twice(op, a), 0
  {
    hide Boxed, BinOverflows, Combine, Run;
    var code, p, v := before + Postfix(Twice(op, a), k) + after, Postfix(a, k), Boxed(IsSigned(a), Meaning(a));
    Grouped(before, p, [OP_DUP], [OpCode(op)], after);
    assert [OP_DUP] + [OpCode(op)] == [OP_DUP, OpCode(op)] && p + [OP_DUP] + [OpCode(op)] == p + [OP_DUP, OpCode(op)];
    CompiledCode(a, k, before, [OP_DUP] + [OpCode(op)] + after, pool, stack);
    if !Overflows(a) {
      assert code[|before| + |p|] == OP_DUP;
      RunDup(code, pool, |before| + |p|, stack, v);
      RunBin(op, IsSigned(a), IsSigned(a), Meaning(a), Meaning(a), code, pool, |before| + |p| + 1, stack);
    }
  }

  lemma CompiledFirst(l: Expr, r: Expr, printed: bool, k: nat, before: seq<byte>, after: seq<byte>, pool: seq<nat>,
                      stack: seq<nat>)
    requires Pooled(First(l, r, printed), k, pool)
    ensures var e := First(l, r, printed); var code := before + Postfix(e, k) + after;
      Run(code, pool, |before|, stack) ==
      if Overflows(e) then Failed(Overflow)
      else Run(code, pool, |before| + |Postfix(e, k)|, stack + [Boxed(IsSigned(e), Meaning(e))])
    decreases First(l, r, printed), 0
  {
    hide Boxed, Run, Pooled, Postfix;
    FirstOf(l, r, printed, k, pool);
    var k', v := k + |Consts(l)|, Boxed(IsSigned(l), Meaning(l));
    var code, p, q := before + Postfix(First(l, r, printed), k) + after, Postfix(l, k), Postfix(r, k');
    Grouped(before, p, q, [DropCode(printed)], after);
    CompiledCode(l, k, before, q + [DropCode(printed)] + after, pool, stack);
    CompiledCode(r, k', before + p, [DropCode(printed)] + after, pool, stack + [v]);
    if !Overflows(l) && !Overflows(r) {
      RunDrop(code, pool, |before| + |p| + |q|, stack + [v], Boxed(IsSigned(r), Meaning(r)));
    }
  }

  /** DUP pushes the top once more. */
  lemma RunDup(code: seq<byte>, pool: seq<nat>, ip: nat, stack: seq<nat>, top: nat)
    requires ip < |code| && code[ip] == OP_DUP
    ensures Run(code, pool, ip, stack + [top]) == Run(code, pool, ip + 1, stack + [top] + [top])
  {
    hide Run;
    RunNext(code, pool, ip, stack + [top], ip + 1, stack + [top] + [top]);
  }

  /** POP and OUT take the top off. */
  lemma RunDrop(code: seq<byte>, pool: seq<nat>, ip: nat, stack: seq<nat>, top: nat)
    requires ip < |code| && (code[ip] == OP_POP || code[ip] == OP_OUT)
    ensures Run(code, pool, ip, stack + [top]) == Run(code, pool, ip + 1, stack)
  {
    hide Run;
    assert (stack + [top])[..|stack|] == stack;
    RunNext(code, pool, ip, stack + [top], ip + 1, stack);
  }

  lemma FirstOf(l: Expr, r: Expr, printed: bool, k: nat, pool: seq<nat>)
    ensures Postfix(First(l, r, printed), k) == Postfix(l, k) + Postfix(r, k + |Consts(l)|) + [DropCode(printed)]
    ensures Pooled(First(l, r, printed), k, pool) ==> Pooled(l, k, pool) && Pooled(r, k + |Consts(l)|, pool)
  {
    hide Consts;
    assert Consts(First(l, r, printed)) == Consts(l) + Consts(r) by { FirstConsts(l, r, printed); }
    if Pooled(First(l, r, printed), k, pool) { Slices(pool, k, Consts(l), Consts(r)); }
  }

  lemma FirstConsts(l: Expr, r: Expr, printed: bool)
    ensures Consts(First(l, r, printed)) == Consts(l) + Consts(r)
  {
  }

  lemma PostfixOf(op: Operator, l: Expr, r: Expr, k: nat)
    ensures Postfix(Bin(op, l, r), k) == Postfix(l, k) + Postfix(r, k + |Consts(l)|) + [OpCode(op)]
  {
  }

  lemma PooledParts(op: Operator, l: Expr, r: Expr, k: nat, pool: seq<nat>)
    requires Pooled(Bin(op, l, r), k, pool)
    ensures Pooled(l, k, pool) && Pooled(r, k + |Consts(l)|, pool)
  {
    hide Consts;
    ConstsOf(op, l, r);
    Slices(pool, k, Consts(l), Consts(r));
  }

  lemma ConstsOf(op: Operator, l: Expr, r: Expr)
    ensures Consts(Bin(op, l, r)) == Consts(l) + Consts(r)
  {
  }

  lemma Slices(s: seq<nat>, k: nat, a: seq<nat>, b: seq<nat>)
    requires k + |a| + |b| <= |s| && s[k..k + |a| + |b|] == a + b
    ensures s[k..k + |a|] == a && s[k + |a|..k + |a| + |b|] == b
  {
    assert s[k..k + |a|] == s[k..k + |a| + |b|][..|a|];
    assert s[k + |a|..k + |a| + |b|] == s[k..k + |a| + |b|][|a|..];
  }

  lemma Grouped(a: seq<byte>, p: seq<byte>, q: seq<byte>, o: seq<byte>, z: seq<byte>)
    ensures a + (p + q + o) + z == a + p + (q + o + z)
    ensures a + (p + q + o) + z == (a + p) + q + (o + z)
    ensures o != [] ==> (a + (p + q + o) + z)[|a| + |p| + |q|] == o[0]
  {
  }

  /** Code ending in RET fails with signed overflow if some signed operation overflows; otherwise it returns the value
      modulo 2^32 read as a 32-bit signed integer, and leaves the stack as it found it. */
  lemma CompiledProgram(e: Expr, pool: seq<nat>, stack: seq<nat>)
    requires Pooled(e, 0, pool)
    ensures Run(Postfix(e, 0) + [OP_RET], pool, 0, stack) ==
      if Overflows(e) then Failed(Overflow) else Exited(Signed32(Meaning(e)), stack)
  {
    hide Boxed, Meaning, Overflows, IsSigned, Postfix, Load, Shuffle, Operation, Pooled, Return, Run;
    var code := Postfix(e, 0) + [OP_RET];
    var v := Boxed(IsSigned(e), Meaning(e));
    assert [] + Postfix(e, 0) + [OP_RET] == code;
    CompiledCode(e, 0, [], [OP_RET], pool, stack);
    ReturnMeans(IsSigned(e), Meaning(e), stack);
    var s := stack + [v];
    assert s[..|s| - 1] == stack;
    assert Turn(code, pool, |Postfix(e, 0)|, s) == Done(Exited(Signed32(Meaning(e)), stack));
    RunFails(code, pool, |Postfix(e, 0)|, s, Exited(Signed32(Meaning(e)), stack));
  }

  /** RET reads an integer of either type as signed. */
  lemma ReturnMeans(signed: bool, a: int, rest: seq<nat>)
    ensures Return(Boxed(signed, a), rest) == Exited(Signed32(a), rest)
  {
    hide PiUInt, PiSInt, AsUInt, TypeOf, IsTrue;
    AsSigned(signed, a);
    BoxedType(signed, a);
  }

  lemma BoxedType(signed: bool, a: int)
    ensures TypeOf(Boxed(signed, a)) == if signed then SINT else UINT
  {
    hide PiUInt, PiSInt, AsUInt, AsSInt, TypeOf, IsTrue;
    UIntRoundTrip(a % WORD32);
    SIntRoundTrip(Signed32(a));
  }

  lemma AsSigned(signed: bool, a: int)
    ensures AsSInt(Boxed(signed, a)) == Signed32(a)
  {
    hide PiUInt, PiSInt, TypeOf, IsTrue;
    UIntRoundTrip(a % WORD32);
    SIntRoundTrip(Signed32(a));
  }

  // ---- When nothing is lost ----

  /** Without signed constants and negation nothing can overflow. */
  predicate Unsigned(e: Expr) {
    match e
    case Imm(_) => true
    case Const(_) => true
    case SignedConst(_) => false
    case Un(op, a) => op == COMPLEMENT && Unsigned(a)
    case Bin(_, l, r) => Unsigned(l) && Unsigned(r)
    case Twice(_, a) => Unsigned(a)
    case First(l, r, _) => Unsigned(l) && Unsigned(r)
  }

  lemma {:induction false} UnsignedNeverOverflows(e: Expr)
    requires Unsigned(e)
    ensures !Overflows(e) && !IsSigned(e)
  {
    hide Meaning;
    match e
    case Imm(_) =>
    case Const(_) =>
    case Un(_, a) => UnsignedNeverOverflows(a);
    case Bin(_, l, r) =>
      UnsignedNeverOverflows(l);
      UnsignedNeverOverflows(r);
    case Twice(_, a) => UnsignedNeverOverflows(a);
    case First(l, r, _) =>
      UnsignedNeverOverflows(l);
      UnsignedNeverOverflows(r);
  }

  /** Signed constants under arithmetic, negation and complement. */
  predicate SignedArithmetic(e: Expr) {
    match e
    case Imm(_) => false
    case Const(_) => false
    case SignedConst(_) => true
    case Un(_, a) => SignedArithmetic(a)
    case Bin(op, l, r) => op.Arithmetic? && SignedArithmetic(l) && SignedArithmetic(r)
    case Twice(op, a) => op.Arithmetic? && SignedArithmetic(a)
    case First(l, r, _) => SignedArithmetic(l) && SignedArithmetic(r)
  }

  /** The exact value of every subexpression is a signed integer. */
  predicate AllFit(e: Expr) {
    Fits(Meaning(e)) &&
    match e
    case Imm(_) => true
    case Const(_) => true
    case SignedConst(_) => true
    case Un(_, a) => AllFit(a)
    case Bin(_, l, r) => AllFit(l) && AllFit(r)
    case Twice(_, a) => AllFit(a)
    case First(l, r, _) => AllFit(l) && AllFit(r)
  }

  /** Signed arithmetic overflows if and only if the exact value of some subexpression leaves the signed integers; so a
      program that returns has returned the exact value. */
  lemma {:induction false} SignedIsExact(e: Expr)
    requires SignedArithmetic(e)
    ensures IsSigned(e) && (Overflows(e) <==> !AllFit(e))
    ensures !Overflows(e) ==> Signed32(Meaning(e)) == Meaning(e)
  {
    hide Meaning, Fits, Signed32, UnOverflows, BinOverflows;
    MeaningOf(e);
    AllFitIs(e);
    match e
    case SignedConst(_) =>
    case Un(op, a) =>
      SignedIsExact(a);
      if AllFit(a) { UnFits(op, Meaning(a)); }
    case Bin(op, l, r) =>
      SignedIsExact(l);
      SignedIsExact(r);
      if AllFit(l) && AllFit(r) { BinFits(op.arith, Meaning(l), Meaning(r)); }
      assert op == Arithmetic(op.arith);
    case Twice(op, a) =>
      SignedIsExact(a);
      if AllFit(a) { BinFits(op.arith, Meaning(a), Meaning(a)); }
      assert op == Arithmetic(op.arith);
    case First(l, r, _) =>
      SignedIsExact(l);
      SignedIsExact(r);
  }

  lemma AllFitIs(e: Expr)
    ensures AllFit(e) ==> Signed32(Meaning(e)) == Meaning(e)
  {
    hide Meaning;
  }

  lemma MeaningOf(e: Expr)
    ensures e.SignedConst? ==> Fits(Meaning(e))
    ensures e.Un? ==> Meaning(e) == Prefixed(e.prefix, Meaning(e.operand))
    ensures e.Bin? ==> Meaning(e) == Combine(e.op, Meaning(e.left), Meaning(e.right))
    ensures e.Twice? ==> Meaning(e) == Combine(e.op, Meaning(e.operand), Meaning(e.operand))
    ensures e.First? ==> Meaning(e) == Meaning(e.left)
  {
    hide Combine, Prefixed;
    match e
    case SignedConst(i) => assert Meaning(e) == i;
    case _ =>
  }

  lemma UnFits(op: Prefix, a: int)
    requires Fits(a)
    ensures UnOverflows(op, a) <==> !Fits(Prefixed(op, a))
  {
  }

  lemma BinFits(op: ArithOp, a: int, b: int)
    requires Fits(a) && Fits(b)
    ensures BinOverflows(Arithmetic(op), true, a, b) <==> !Fits(Combine(Arithmetic(op), a, b))
  {
    hide Exactly;
    assert Signed32(a) == a && Signed32(b) == b;
  }

  // ---- Constants ----

  /** LDC holds the index of its constant in one byte. It loads the constant it was emitted for if and only if the
      index is below 256 or the constant it aliases is the same. */
  lemma ConstantLoads(code: seq<byte>, ip: nat, pool: seq<nat>, index: nat, stack: seq<nat>)
    requires ip + 1 < |code| && code[ip] == OP_LDC && index < |pool| && code[ip + 1] == index % 256
    ensures Turn(code, pool, ip, stack) == Next(ip + 2, stack + [pool[index % 256]])
    ensures Turn(code, pool, ip, stack) == Next(ip + 2, stack + [pool[index]]) <==>
      index < 256 || pool[index % 256] == pool[index]
  {
    var a, b := stack + [pool[index % 256]], stack + [pool[index]];
    assert a[|stack|] == pool[index % 256] && b[|stack|] == pool[index];
  }

  /** In a pool of 257 different constants the last one loads the first. */
  lemma ConstantAliases()
    ensures var pool: seq<nat> := seq(257, i => i);
      Turn([OP_LDC, 256 % 256], pool, 0, []) == Next(2, [0]) && pool[256] == 256
  {
  }
}
