/** The NaN-boxed values of include/pi/runtime/value.h: 64-bit words whose bits are a double, or a tagged integer,
    or a tagged address (binary64 layout, section 3.4 of IEEE 754-2008). */
module Values {
  import opened Bits

  const SIGN := 0x8000_0000_0000_0000
  const QNAN := 0x7FFC_0000_0000_0000
  const UINT44_MAX := 0xFFF_FFFF_FFFF

  const NONE := 0
  const BOOL := 1
  const CHAR := 2
  const UINT := 3
  const SINT := 4
  const REAL := 5
  const OBJC := 6

  type SInt32 = i: int | -0x8000_0000 <= i < 0x8000_0000
  type UInt32 = u: int | 0 <= u < WORD32
  type Char8 = c: int | -128 <= c < 128

  /** A C cast to uint64_t. */
  function Unsigned64(i: int): Word { i % WORD64 }

  /** A C cast to int32_t, and to a signed char. */
  function Signed32(n: int): SInt32 { var m := n % WORD32; if m < 0x8000_0000 then m else m - WORD32 }
  function Signed8(n: int): Char8 { var m := n % 256; if m < 128 then m else m - 256 }

  // ---- Boxing ----

  /** PI_GetValue. */
  function Box(kind: nat, data: Word): nat {
    Or(Or(QNAN, Shl(And(kind, 0xF), 44)), And(data, UINT44_MAX))
  }

  function PiBool(b: bool): nat { Box(BOOL, if b then 1 else 0) }
  function PiChar(c: Char8): nat { Box(CHAR, Unsigned64(c)) }
  function PiUInt(u: UInt32): nat { Box(UINT, u) }
  function PiSInt(i: SInt32): nat { Box(SINT, Unsigned64(i)) }
  function PiNull(): nat { Box(NONE, 0) }

  /** piObject on an address; 0 is NULL. */
  function PiObject(addr: Word): nat {
    if addr == 0 then PiNull() else Or(Or(SIGN, QNAN), addr)
  }

  const NAN := 0x7FF8_0000_0000_0000
  const INFINITY := 0x7FF0_0000_0000_0000

  function Exponent(d: Word): nat { d / 0x10_0000_0000_0000 % 0x800 }
  function Fraction(d: Word): nat { d % 0x10_0000_0000_0000 }
  predicate IsNan(d: Word) { Exponent(d) == 0x7FF && Fraction(d) != 0 }
  predicate IsInf(d: Word) { Exponent(d) == 0x7FF && Fraction(d) == 0 }

  /** piReal on the bits of a double: one NaN, and one infinity. */
  function PiReal(d: Word): Word {
    if IsNan(d) then NAN else if IsInf(d) then INFINITY else d
  }

  // ---- Unboxing ----

  predicate HasTag(w: nat, tag: nat) { And(w, tag) == tag }
  function Nibble(w: nat): nat { And(Shr(w, 44), 0xF) }
  function Data(w: nat): nat { And(w, UINT44_MAX) }

  predicate IsReal(w: nat) { !HasTag(w, QNAN) }
  predicate IsObject(w: nat) { HasTag(w, Or(SIGN, QNAN)) }

  /** piValueTypeOf. */
  function TypeOf(w: nat): nat {
    if IsReal(w) then REAL else if IsObject(w) then OBJC else Nibble(w)
  }

  function AsBool(w: nat): bool { Data(w) != 0 }
  function AsChar(w: nat): Char8 { Signed8(Data(w)) }
  function AsUInt(w: nat): UInt32 { Data(w) % WORD32 }
  function AsSInt(w: nat): SInt32 { Signed32(Data(w)) }
  function AsReal(w: Word): Word { w }
  function AsObject(w: nat): nat { Xor(w, Or(SIGN, QNAN)) }

  /** piIsTrue of the release build. */
  predicate IsTrue(w: nat) { Data(w) != 0 }

  // ---- Bit fields ----

  const FIELD50 := 0x4_0000_0000_0000
  const FIELD44 := 0x1000_0000_0000

  lemma Fields()
    ensures QNAN == Shl(0x1FFF, 50) && SIGN == Shl(0x2000, 50) && Or(SIGN, QNAN) == Shl(0x3FFF, 50)
    ensures UINT44_MAX == Exp2(44) - 1 && Exp2(44) == FIELD44 && Exp2(50) == FIELD50 && Exp2(13) == 0x2000
    ensures Exp2(4) == 16 && Exp2(14) == 0x4000 && Exp2(6) == 64
  {
    hide Exp2, Shl, Bitwise;
    ExpValues();
    ExpSum(1, 13);
    assert Exp2(1) == 2 by { ExpValuesSmall(); }
    ExpSum(6, 44);
    assert Exp2(6) == 64 by { ExpValuesSmall(); }
    ShlIsTimes(0x1FFF, 50);
    ShlIsTimes(0x2000, 50);
    ShlIsTimes(0x3FFF, 50);
    ShlIsTimes(1, 13);
    OrDisjoint(1, 13, 0x1FFF);
    ShlIsTimes(0, 50);
    Zero(OR, 0);
    Blocks(OR, 50, 0x2000, 0, 0x1FFF, 0);
  }

  lemma ExpValuesSmall()
    ensures Exp2(1) == 2 && Exp2(6) == 64
  {
    assert Exp2(3) == 8;
  }

  /** A tag test looks at the fourteen high bits only. */
  lemma Tags(w: Word)
    ensures HasTag(w, QNAN) <==> w / FIELD50 % 0x2000 == 0x1FFF
    ensures HasTag(w, Or(SIGN, QNAN)) <==> w / FIELD50 == 0x3FFF
  {
    hide Exp2, Shl, Bitwise;
    Fields();
    var h, l := Split(w, 50);
    Zero(AND, l);
    Blocks(AND, 50, h, l, 0x1FFF, 0);
    Blocks(AND, 50, h, l, 0x3FFF, 0);
    LowMask(h, 13);
    LowMask(h, 14);
    ShlIsTimes(h % 0x2000, 50);
    ShlIsTimes(0x1FFF, 50);
    ShlIsTimes(h % 0x4000, 50);
    ShlIsTimes(0x3FFF, 50);
    assert h < 0x4000;
  }

  /** The unboxing fields of a word. */
  lemma FieldsOf(w: Word)
    ensures Nibble(w) == w / FIELD44 % 16 && Data(w) == w % FIELD44
  {
    hide Exp2, Shl, Bitwise, Shr;
    Fields();
    ShrIsDiv(w, 44);
    LowMask(Shr(w, 44), 4);
    LowMask(w, 44);
  }

  lemma BoxIs(kind: nat, data: Word)
    requires kind < 16
    ensures Box(kind, data) == QNAN + kind * FIELD44 + data % FIELD44
    ensures Box(kind, data) < WORD64
    ensures Box(kind, data) / FIELD50 == 0x1FFF
    ensures Nibble(Box(kind, data)) == kind && Data(Box(kind, data)) == data % FIELD44
  {
    var d := data % FIELD44;
    BoxSum(kind, data);
    var w := QNAN + kind * FIELD44 + d;
    BoxFields(kind, d);
    FieldsOf(w);
  }

  lemma BoxFields(kind: nat, d: nat)
    requires kind < 16 && d < FIELD44
    ensures var w := QNAN + kind * FIELD44 + d;
      w < WORD64 && w / FIELD50 == 0x1FFF && w / FIELD44 % 16 == kind && w % FIELD44 == d
  {
    var w := QNAN + kind * FIELD44 + d;
    assert w == (0x1FFF * 64 + kind) * FIELD44 + d;
    DivSmall(0x1FFF * 64 + kind, d, FIELD44);
    DivSmall(0x1FFF, kind * FIELD44 + d, FIELD50);
  }

  lemma BoxSum(kind: nat, data: Word)
    requires kind < 16
    ensures Box(kind, data) == QNAN + kind * FIELD44 + data % FIELD44
  {
    hide Exp2, Shl, Bitwise;
    Fields();
    LowMask(kind, 4);
    LowMask(data, 44);
    ShlIsTimes(kind, 44);
    OrDisjoint(0x1FFF, 50, kind * FIELD44);
    ShlIsTimes(0x1FFF, 50);
    var h := 0x1FFF * 64 + kind;
    ShlIsTimes(h, 44);
    assert h * FIELD44 == QNAN + kind * FIELD44;
    OrDisjoint(h, 44, data % FIELD44);
  }

  /** The type of a word: 5, a double, unless thirteen bits below the sign are set; then 6, an object, with the sign,
      and without it the number in the next four bits. */
  lemma TypeIs(w: Word)
    ensures TypeOf(w) ==
      if w / 0x4_0000_0000_0000 % 0x2000 != 0x1FFF then 5
      else if w >= 0xFFFC_0000_0000_0000 then 6
      else w / 0x1000_0000_0000 % 16
  {
    hide Bitwise, Shl, Exp2, Shr, Nibble;
    Tags(w);
    FieldsOf(w);
  }

  /** The words of null, of booleans, characters and integers: 44 bits of data under the number of the type. */
  lemma BoxedWords(b: bool, c: Char8, u: UInt32, i: SInt32)
    ensures PiNull() == 0x7FFC_0000_0000_0000
    ensures PiBool(b) == if b then 0x7FFC_1000_0000_0001 else 0x7FFC_1000_0000_0000
    ensures PiChar(c) == if c < 0 then 0x7FFC_3000_0000_0000 + c else 0x7FFC_2000_0000_0000 + c
    ensures PiUInt(u) == 0x7FFC_3000_0000_0000 + u
    ensures PiSInt(i) == if i < 0 then 0x7FFC_5000_0000_0000 + i else 0x7FFC_4000_0000_0000 + i
  {
    hide Box, Unsigned64;
    BoxedWord(NONE, 0);
    BoxedWord(BOOL, if b then 1 else 0);
    BoxedWord(CHAR, c);
    BoxedWord(UINT, u);
    BoxedWord(SINT, i);
    assert Unsigned64(0) == 0 && Unsigned64(1) == 1 && Unsigned64(u) == u by { SmallWords(u); }
  }

  lemma SmallWords(u: UInt32)
    ensures Unsigned64(0) == 0 && Unsigned64(1) == 1 && Unsigned64(u) == u
  {
  }

  lemma BoxedWord(kind: nat, i: int)
    requires kind < 16 && -FIELD44 < i < FIELD44
    ensures Box(kind, Unsigned64(i)) == QNAN + kind * FIELD44 + if i < 0 then FIELD44 + i else i
  {
    hide Box, Nibble, Data;
    BoxIs(kind, Unsigned64(i));
    Remainders(i, WORD64, FIELD44);
    assert i % FIELD44 == if i < 0 then i + FIELD44 else i;
  }

  // ---- Round trips ----

  /** A boxed integer, character or boolean has the type it was boxed with. */
  lemma TypeOfBox(kind: nat, data: Word)
    requires kind < 16
    ensures TypeOf(Box(kind, data)) == kind
  {
    hide Exp2, Shl, Bitwise, Box, Nibble;
    BoxIs(kind, data);
    Tags(Box(kind, data));
  }

  lemma Truncated(i: int, m: int)
    requires m == 256 || m == WORD32
    ensures Unsigned64(i) % FIELD44 % m == i % m
  {
    Remainders(i, WORD64, FIELD44);
    Remainders(i, FIELD44, m);
  }

  lemma Remainders(i: int, m: int, n: int)
    requires 0 < n && m % n == 0 && m > 0
    ensures i % m % n == i % n
  {
    var q, k := i / m, m / n;
    assert m == n * k;
    assert i == n * (k * q) + i % m;
    var r := i % m;
    assert r == n * (r / n) + r % n;
    assert i == n * (k * q + r / n) + r % n;
    Quotient(i, n, k * q + r / n, r % n);
  }

  lemma Quotient(i: int, n: int, q: int, r: int)
    requires 0 <= r < n && i == n * q + r
    ensures i % n == r
  {
    assert i == n * (i / n) + i % n;
    assert (q - i / n) * n == i % n - r;
    SmallMultiple(q - i / n, n);
  }

  lemma BoolRoundTrip(b: bool)
    ensures TypeOf(PiBool(b)) == BOOL && AsBool(PiBool(b)) == b
  {
    hide Box, TypeOf, Data;
    TypeOfBox(BOOL, if b then 1 else 0);
    BoxIs(BOOL, if b then 1 else 0);
  }

  lemma CharRoundTrip(c: Char8)
    ensures TypeOf(PiChar(c)) == CHAR && AsChar(PiChar(c)) == c
  {
    hide Box, TypeOf, Data, Unsigned64;
    TypeOfBox(CHAR, Unsigned64(c));
    BoxIs(CHAR, Unsigned64(c));
    Truncated(c, 256);
    assert c % 256 == if c < 0 then c + 256 else c;
  }

  lemma UIntRoundTrip(u: UInt32)
    ensures TypeOf(PiUInt(u)) == UINT && AsUInt(PiUInt(u)) == u && AsSInt(PiUInt(u)) == Signed32(u)
    ensures IsTrue(PiUInt(u)) <==> u != 0
  {
    hide Box, TypeOf, Data;
    TypeOfBox(UINT, u);
    BoxIs(UINT, u);
  }

  lemma SIntRoundTrip(i: SInt32)
    ensures TypeOf(PiSInt(i)) == SINT && AsSInt(PiSInt(i)) == i && AsUInt(PiSInt(i)) == i % WORD32
  {
    hide Box, TypeOf, Data, Unsigned64;
    TypeOfBox(SINT, Unsigned64(i));
    BoxIs(SINT, Unsigned64(i));
    Truncated(i, WORD32);
    assert i % WORD32 == if i < 0 then i + WORD32 else i;
  }

  /** An address survives boxing if and only if it is below 2^50; the type is OBJC for every address but NULL. */
  lemma ObjectRoundTrip(addr: Word)
    requires addr != 0
    ensures PiObject(addr) < WORD64 && IsObject(PiObject(addr)) && TypeOf(PiObject(addr)) == OBJC
    ensures AsObject(PiObject(addr)) == addr % FIELD50
    ensures AsObject(PiObject(addr)) == addr <==> addr < FIELD50
  {
    hide Exp2, Shl, Bitwise;
    Fields();
    var h, l := Split(addr, 50);
    Zero(OR, l);
    Zero(XOR, l);
    var top := 0x3FFF;
    Blocks(OR, 50, top, 0, h, l);
    assert h < Exp2(14);
    AndOnes(h, 14);
    OrSymmetric(h, top);
    assert Or(top, h) == top;
    Blocks(XOR, 50, top, l, top, 0);
    XorCancels(0, top);
    Zero(XOR, top);
    ShlIsTimes(0, 50);
    ShlIsTimes(top, 50);
    var w := PiObject(addr);
    assert w == top * FIELD50 + l;
    DivSmall(top, l, FIELD50);
    Tags(w);
    assert AsObject(w) == l;
  }

  lemma {:induction false} OrSymmetric(a: nat, b: nat)
    ensures Or(a, b) == Or(b, a)
    decreases a + b
  {
    if a + b == 0 {
    } else {
      OrSymmetric(a / 2, b / 2);
    }
  }

  /** Every boxed double reads back as REAL. It reads back as itself if and only if it is not negative infinity and
      not a NaN other than the canonical one. */
  lemma RealRoundTrip(d: Word)
    ensures TypeOf(PiReal(d)) == REAL
    ensures AsReal(PiReal(d)) == d <==> !(IsNan(d) && d != NAN) && d != SIGN + INFINITY
  {
    hide Exp2, Shl, Bitwise;
    Tags(PiReal(d));
    var q := d / 0x10_0000_0000_0000;
    assert d == q * 0x10_0000_0000_0000 + Fraction(d);
    assert d / FIELD50 == q * 4 + Fraction(d) / FIELD50;
    assert IsInf(d) ==> q == 0x7FF || q == 0xFFF;
  }

  /** No number, boolean, character, double or null is taken for an object. */
  lemma ObjectTest(w: Word)
    ensures IsObject(w) ==> TypeOf(w) == OBJC
  {
    hide Bitwise;
    Tags(w);
  }
}
