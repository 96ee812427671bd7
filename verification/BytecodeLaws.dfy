/** What single instructions do to values of every type, and whole chunks written out in bytes. */
module BytecodeLaws {
  import opened Bits
  import opened Values
  import opened Bytecode

  // ---- Truth ----

  /** In the release build a value is true if and only if some of its low 44 bits is set. */
  lemma TruthIs(w: nat)
    ensures IsTrue(w) <==> w % 0x1000_0000_0000 != 0
  {
    hide Bitwise, Exp2;
    ExpValues();
    LowMask(w, 44);
  }

  /** So a boxed boolean, character or integer is true if and only if it is not false or zero, and nothing is false. */
  lemma TruthOfBoxed(b: bool, c: Char8, u: UInt32, i: SInt32)
    ensures IsTrue(PiBool(b)) <==> b
    ensures IsTrue(PiChar(c)) <==> c != 0
    ensures IsTrue(PiUInt(u)) <==> u != 0
    ensures IsTrue(PiSInt(i)) <==> i != 0
    ensures !IsTrue(PiNull())
  {
    hide Box, Data, Unsigned64;
    BoxedTruth(BOOL, if b then 1 else 0);
    BoxedTruth(CHAR, c);
    BoxedTruth(UINT, u);
    BoxedTruth(SINT, i);
    BoxedTruth(NONE, 0);
    assert Unsigned64(0) == 0 && Unsigned64(1) == 1 && Unsigned64(u) == u by { SmallWords(u); }
  }

  lemma BoxedTruth(kind: nat, i: int)
    requires kind < 16 && -0x1000_0000_0000 < i < 0x1000_0000_0000
    ensures IsTrue(Box(kind, Unsigned64(i))) <==> i != 0
  {
    hide Box, Data;
    BoxIs(kind, Unsigned64(i));
    Remainders(i, WORD64, FIELD44);
    assert i % FIELD44 == if i < 0 then i + FIELD44 else i;
  }

  /** The double 1.0 is false: its low 44 bits are zero. */
  lemma OneIsFalse()
    ensures PiReal(0x3FF0_0000_0000_0000) == 0x3FF0_0000_0000_0000 && !IsTrue(PiReal(0x3FF0_0000_0000_0000))
  {
    TruthIs(0x3FF0_0000_0000_0000);
  }

  // ---- Logic ----

  /** NOT of a boolean, of a character, and of nothing. */
  lemma NotOfOthers(b: bool, c: Char8)
    ensures Unary(0x36, PiBool(b)) == Value(PiBool(!b))
    ensures Unary(0x36, PiChar(c)) == Value(PiBool(c == 0))
    ensures Unary(0x36, PiNull()) == Value(PiBool(true))
  {
    hide Box, TypeOf, Data;
    BoolRoundTrip(b);
    CharRoundTrip(c);
    TypeOfBox(NONE, 0);
  }

  /** NOT of a double tests for the two zeros. NOT of an object, BNOT of anything but an integer, and NEG of anything
      but a number have no case. */
  lemma PrefixOfOthers(w: Word)
    ensures TypeOf(w) == REAL ==> Unary(0x36, w) == Value(PiBool(w == 0 || w == 0x8000_0000_0000_0000))
    ensures TypeOf(w) == OBJC ==> Unary(0x36, w) == NotImplemented
    ensures TypeOf(w) !in {UINT, SINT} ==> Unary(0x30, w) == NotImplemented
    ensures TypeOf(w) in {NONE, BOOL, CHAR, OBJC} ==> Unary(0x39, w) == NotImplemented
  {
    hide TypeOf, PiBool;
    assert w % 0x8000_0000_0000_0000 == if w < 0x8000_0000_0000_0000 then w else w - 0x8000_0000_0000_0000;
  }

  /** AND and OR answer the boolean of the truths of their operands, whatever the types. */
  lemma LogicIs(l: nat, r: nat)
    ensures Binary(0x37, l, r) == Value(PiBool(l % 0x1000_0000_0000 != 0 && r % 0x1000_0000_0000 != 0))
    ensures Binary(0x38, l, r) == Value(PiBool(l % 0x1000_0000_0000 != 0 || r % 0x1000_0000_0000 != 0))
  {
    hide PiBool, IsTrue;
    TruthIs(l);
    TruthIs(r);
  }

  // ---- Characters, and types that do not go together ----

  /** ADD and SUB with a character on the left are done in 8 bits; MUL has no such case. */
  lemma CharArithmetic(a: Char8, c: Char8, u: UInt32, i: SInt32)
    ensures Binary(0x3A, PiChar(a), PiChar(c)) == Value(PiChar(Signed8(a + c)))
    ensures Binary(0x3B, PiChar(a), PiChar(c)) == Value(PiChar(Signed8(a - c)))
    ensures Binary(0x3A, PiChar(a), PiUInt(u)) == Value(PiChar(Signed8(a + u)))
    ensures Binary(0x3B, PiChar(a), PiUInt(u)) == Value(PiChar(Signed8(a - u)))
    ensures Binary(0x3A, PiChar(a), PiSInt(i)) == Value(PiChar(Signed8(a + i)))
    ensures Binary(0x3B, PiChar(a), PiSInt(i)) == Value(PiChar(Signed8(a - i)))
    ensures Binary(0x3C, PiChar(a), PiChar(c)) == NotImplemented
  {
    hide PiChar, PiUInt, PiSInt, TypeOf, AsChar, AsUInt, AsSInt, Bitwise32, IsTrue, Signed8;
    CharRoundTrip(a);
    CharRoundTrip(c);
    UIntRoundTrip(u);
    SIntRoundTrip(i);
    EightBits(a, u);
    EightBits(a, i);
  }

  lemma EightBits(a: int, b: int)
    ensures Signed8(a + Signed8(b)) == Signed8(a + b) && Signed8(a - Signed8(b)) == Signed8(a - b)
  {
    hide Signed8;
    KeepsByte(b);
    SumCongruent(a, b, 256);
    SumCongruent(a, Signed8(b), 256);
    DifferenceCongruent(a, b, 256);
    DifferenceCongruent(a, Signed8(b), 256);
    SameByte(a + Signed8(b), a + b);
    SameByte(a - Signed8(b), a - b);
  }

  lemma KeepsByte(x: int)
    ensures Signed8(x) % 256 == x % 256
  {
  }

  lemma SameByte(x: int, y: int)
    requires x % 256 == y % 256
    ensures Signed8(x) == Signed8(y)
  {
  }

  /** A boolean, an object or nothing has no arithmetic and no bitwise operation. */
  lemma OtherTypes(l: nat, r: nat, op: byte)
    requires op in {0x31, 0x32, 0x33, 0x3A, 0x3B, 0x3C}
    requires TypeOf(l) in {NONE, BOOL, OBJC} || TypeOf(r) in {NONE, BOOL, OBJC}
    ensures Binary(op, l, r) == NotImplemented
  {
    hide TypeOf;
  }

  // ---- Control ----

  /** NOP and EQ do nothing; EXIT answers the byte behind it; a byte that is no instruction answers 1. */
  lemma ControlIs(code: seq<byte>, pool: seq<nat>, ip: nat, stack: seq<nat>)
    requires ip < |code|
    ensures code[ip] == 0x00 || code[ip] == 0x40 ==> Run(code, pool, ip, stack) == Run(code, pool, ip + 1, stack)
    ensures code[ip] == 0x0E && ip + 1 < |code| ==> Run(code, pool, ip, stack) == Exited(code[ip + 1], stack)
    ensures code[ip] == 0x0F && stack == [] ==> Run(code, pool, ip, stack) == Exited(0, [])
    ensures code[ip] !in {0x00, 0x0E, 0x0F, 0x10, 0x11, 0x1A, 0x1B, 0x30, 0x31, 0x32, 0x33, 0x36, 0x37, 0x38, 0x39,
                          0x3A, 0x3B, 0x3C, 0x3D, 0x3E, 0x3F, 0x40, 0xA0} ==>
      Run(code, pool, ip, stack) == Exited(1, stack)
  {
    hide Load, Shuffle, Operation, Return;
  }

  /** RET of a boolean, a character and nothing. */
  lemma ReturnOfOthers(b: bool, c: Char8, rest: seq<nat>)
    ensures Return(PiBool(b), rest) == Exited(if b then 1 else 0, rest)
    ensures Return(PiChar(c), rest) == Exited(c, rest)
    ensures Return(PiNull(), rest) == Exited(0, rest)
  {
    hide Box, TypeOf, AsSInt, Unsigned64;
    assert Unsigned64(0) == 0 && Unsigned64(1) == 1 by { SmallWords(0); }
    BoxedInteger(BOOL, if b then 1 else 0);
    BoxedInteger(CHAR, c);
    BoxedInteger(NONE, 0);
  }

  lemma BoxedInteger(kind: nat, i: SInt32)
    requires kind < 16
    ensures TypeOf(Box(kind, Unsigned64(i))) == kind && AsSInt(Box(kind, Unsigned64(i))) == i
  {
    hide Box, TypeOf, Data, Unsigned64;
    TypeOfBox(kind, Unsigned64(i));
    BoxIs(kind, Unsigned64(i));
    Truncated(i, WORD32);
    assert i % WORD32 == if i < 0 then i + WORD32 else i;
  }

  // ---- Chunks in bytes ----

  /** The bytes of the instructions. */
  lemma CodeBytes(a: byte, b: byte)
    ensures Postfix(Bin(Arithmetic(ADD), Imm(a), Imm(b)), 0) == [0x11, a, 0x11, b, 0x3A]
    ensures Postfix(Bin(Arithmetic(SUB), Imm(a), Imm(b)), 0) == [0x11, a, 0x11, b, 0x3B]
    ensures Postfix(Bin(Arithmetic(MUL), Imm(a), Imm(b)), 0) == [0x11, a, 0x11, b, 0x3C]
    ensures Postfix(Bin(BitByBit(AND), Imm(a), Imm(b)), 0) == [0x11, a, 0x11, b, 0x31]
    ensures Postfix(Bin(BitByBit(OR), Imm(a), Imm(b)), 0) == [0x11, a, 0x11, b, 0x32]
    ensures Postfix(Bin(BitByBit(XOR), Imm(a), Imm(b)), 0) == [0x11, a, 0x11, b, 0x33]
    ensures Postfix(Un(COMPLEMENT, Imm(a)), 0) == [0x11, a, 0x30] && Postfix(Un(NEGATE, Imm(a)), 0) == [0x11, a, 0x39]
    ensures Postfix(First(Imm(a), Imm(b), true), 0) == [0x11, a, 0x11, b, 0xA0]
    ensures Postfix(Const(a), 0) == [0x10, 0]
  {
    assert Consts(Imm(a)) == [];
  }

  /** Push 2, push 3, duplicate, add, return: 6, whatever lies below. */
  lemma DuplicatesTheTop(pool: seq<nat>)
    ensures Run([0x11, 2, 0x11, 3, 0x1B, 0x3A, 0x1A, 0x0F], pool, 0, []) == Exited(2, [])
    ensures Run([0x11, 3, 0x1B, 0x3A, 0x0F], pool, 0, [PiUInt(2)]) == Exited(6, [PiUInt(2)])
  {
    hide Run, PiUInt;
    var twice := Twice(Arithmetic(ADD), Imm(3));
    var e := First(Imm(2), twice, false);
    assert pool[0..0] == [];
    assert Consts(twice) == [] && Consts(e) == [];
    assert Postfix(twice, 0) == [0x11, 3, 0x1B, 0x3A];
    assert Postfix(e, 0) == [0x11, 2, 0x11, 3, 0x1B, 0x3A, 0x1A];
    CompiledProgram(e, pool, []);
    CompiledProgram(twice, pool, [PiUInt(2)]);
    assert Postfix(e, 0) + [OP_RET] == [0x11, 2, 0x11, 3, 0x1B, 0x3A, 0x1A, 0x0F];
    assert Postfix(twice, 0) + [OP_RET] == [0x11, 3, 0x1B, 0x3A, 0x0F];
  }
}
