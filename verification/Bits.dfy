/** Bitwise operators of C's unsigned integers, on natural numbers. */
module Bits {

  type byte = b: int | 0 <= b < 256

  const WORD32 := 0x1_0000_0000
  const WORD64 := 0x1_0000_0000_0000_0000

  type Word = w: int | 0 <= w < WORD64

  function Exp2(k: nat): (r: nat)
    ensures r >= 1
  {
    if k == 0 then 1 else 2 * Exp2(k - 1)
  }

  datatype BitOp = AND | OR | XOR

  function OnBit(op: BitOp, x: nat, y: nat): nat {
    match op
    case AND => if x == 1 && y == 1 then 1 else 0
    case OR => if x == 1 || y == 1 then 1 else 0
    case XOR => if x != y then 1 else 0
  }

  function Bitwise(op: BitOp, a: nat, b: nat): nat
    decreases a + b
  {
    if a == 0 && b == 0 then 0 else 2 * Bitwise(op, a / 2, b / 2) + OnBit(op, a % 2, b % 2)
  }

  function And(a: nat, b: nat): nat { Bitwise(AND, a, b) }
  function Or(a: nat, b: nat): nat { Bitwise(OR, a, b) }
  function Xor(a: nat, b: nat): nat { Bitwise(XOR, a, b) }

  lemma {:induction false} ExpSum(j: nat, k: nat)
    ensures Exp2(j + k) == Exp2(j) * Exp2(k)
  {
    if j == 0 {
    } else {
      ExpSum(j - 1, k);
      assert 2 * (Exp2(j - 1) * Exp2(k)) == (2 * Exp2(j - 1)) * Exp2(k);
    }
  }

  lemma ExpValues()
    ensures Exp2(4) == 16 && Exp2(8) == 256 && Exp2(13) == 8192 && Exp2(16) == 65536
    ensures Exp2(32) == WORD32 && Exp2(44) == 0x1000_0000_0000 && Exp2(48) == 0x1_0000_0000_0000
    ensures Exp2(50) == 0x4_0000_0000_0000 && Exp2(64) == 0x1_0000_0000_0000_0000
  {
    assert Exp2(2) == 4;
    ExpSum(2, 2);
    ExpSum(4, 4);
    ExpSum(1, 4); ExpSum(5, 8);
    ExpSum(8, 8);
    ExpSum(16, 16);
    ExpSum(4, 8); ExpSum(12, 32);
    ExpSum(16, 32);
    ExpSum(2, 48);
    ExpSum(32, 32);
  }

  lemma {:induction false} ExpMono(j: nat, k: nat)
    requires j <= k
    ensures Exp2(j) <= Exp2(k)
    decreases k - j
  {
    if j == k {
    } else {
      ExpMono(j + 1, k);
    }
  }

  lemma SmallMultiple(x: int, m: int)
    requires -m < x * m < m
    ensures x == 0
  {
    assert x >= 1 ==> x * m >= m;
    assert x <= -1 ==> x * m <= -m;
  }

  lemma DivSmall(h: nat, l: nat, m: nat)
    requires l < m
    ensures (h * m + l) / m == h && (h * m + l) % m == l
  {
    var n := h * m + l;
    assert n == (n / m) * m + n % m;
    assert (h - n / m) * m == n % m - l;
    SmallMultiple(h - n / m, m);
  }

  lemma Unfold(op: BitOp, a: nat, b: nat)
    ensures Bitwise(op, a, b) == 2 * Bitwise(op, a / 2, b / 2) + OnBit(op, a % 2, b % 2)
  {
  }

  /** h << k. */
  function Shl(h: nat, k: nat): nat {
    if k == 0 then h else 2 * Shl(h, k - 1)
  }

  lemma {:induction false} ShlIsTimes(h: nat, k: nat)
    ensures Shl(h, k) == h * Exp2(k)
  {
    if k == 0 {
    } else {
      ShlIsTimes(h, k - 1);
      assert h * (2 * Exp2(k - 1)) == 2 * (h * Exp2(k - 1));
    }
  }

  /** n >> s. */
  function Shr(n: nat, s: nat): nat
    decreases s
  {
    if s == 0 then n else Shr(n / 2, s - 1)
  }

  lemma {:induction false} ShrOfSplit(h: nat, l: nat, s: nat)
    requires l < Exp2(s)
    ensures Shr(Shl(h, s) + l, s) == h
  {
    if s == 0 {
    } else {
      assert (Shl(h, s) + l) / 2 == Shl(h, s - 1) + l / 2;
      ShrOfSplit(h, l / 2, s - 1);
    }
  }

  lemma ShrIsDiv(n: nat, s: nat)
    ensures Shr(n, s) == n / Exp2(s)
  {
    hide Shr, Shl, Exp2;
    var h, l := Split(n, s);
    ShrOfSplit(h, l, s);
  }

  /** Bitwise operators act on the high and the low bits separately. */
  lemma {:induction false} Blocks(op: BitOp, k: nat, h: nat, l: nat, h': nat, l': nat)
    requires l < Exp2(k) && l' < Exp2(k)
    ensures Bitwise(op, Shl(h, k) + l, Shl(h', k) + l') == Shl(Bitwise(op, h, h'), k) + Bitwise(op, l, l')
    ensures Bitwise(op, l, l') < Exp2(k)
  {
    hide Bitwise, OnBit, Shl, Exp2;
    if k == 0 {
      NoLowBits(op, h, l, h', l');
    } else {
      Halved(h, k, l);
      Halved(h', k, l');
      Blocks(op, k - 1, h, l / 2, h', l' / 2);
      ShlStep(Bitwise(op, h, h'), k);
      Doubled(op, Shl(h, k) + l, Shl(h', k) + l', Shl(h, k - 1) + l / 2, Shl(h', k - 1) + l' / 2);
      Doubled(op, l, l', l / 2, l' / 2);
      BitBound(op, l % 2, l' % 2);
    }
  }

  lemma NoLowBits(op: BitOp, h: nat, l: nat, h': nat, l': nat)
    requires l < Exp2(0) && l' < Exp2(0)
    ensures Bitwise(op, Shl(h, 0) + l, Shl(h', 0) + l') == Shl(Bitwise(op, h, h'), 0) + Bitwise(op, l, l')
    ensures Bitwise(op, l, l') < Exp2(0)
  {
  }

  lemma Doubled(op: BitOp, a: nat, b: nat, a': nat, b': nat)
    requires a / 2 == a' && b / 2 == b'
    ensures Bitwise(op, a, b) == 2 * Bitwise(op, a', b') + OnBit(op, a % 2, b % 2)
  {
  }

  lemma ShlStep(h: nat, k: nat)
    requires k > 0
    ensures Shl(h, k) == 2 * Shl(h, k - 1)
  {
  }

  lemma Halved(h: nat, k: nat, l: nat)
    requires k > 0
    ensures (Shl(h, k) + l) / 2 == Shl(h, k - 1) + l / 2 && (Shl(h, k) + l) % 2 == l % 2
    ensures Exp2(k) == 2 * Exp2(k - 1)
  {
  }

  lemma BitBound(op: BitOp, x: nat, y: nat)
    ensures OnBit(op, x, y) <= 1
  {
  }

  lemma {:induction false} Zero(op: BitOp, a: nat)
    ensures Bitwise(AND, a, 0) == 0 == Bitwise(AND, 0, a)
    ensures Bitwise(OR, a, 0) == a == Bitwise(OR, 0, a)
    ensures Bitwise(XOR, a, 0) == a == Bitwise(XOR, 0, a)
    decreases a
  {
    if a == 0 {
    } else {
      Zero(op, a / 2);
    }
  }

  // ---- Masks ----

  lemma {:induction false} AndOnes(x: nat, k: nat)
    requires x < Exp2(k)
    ensures And(x, Exp2(k) - 1) == x && Or(x, Exp2(k) - 1) == Exp2(k) - 1
  {
    if k == 0 {
    } else {
      AndOnes(x / 2, k - 1);
      Unfold(AND, x, Exp2(k) - 1);
      Unfold(OR, x, Exp2(k) - 1);
    }
  }

  /** Complementing k bits is an exclusive or with ones. */
  lemma {:induction false} XorOnes(x: nat, k: nat)
    requires x < Exp2(k)
    ensures Xor(x, Exp2(k) - 1) == Exp2(k) - 1 - x
  {
    if k == 0 {
    } else {
      XorOnes(x / 2, k - 1);
      Unfold(XOR, x, Exp2(k) - 1);
    }
  }

  /** Masking with 2^k - 1 is the remainder. */
  lemma LowMask(x: nat, k: nat)
    ensures And(x, Exp2(k) - 1) == x % Exp2(k)
  {
    hide Bitwise, Shl, Exp2;
    var h, l := Split(x, k);
    ShlIsTimes(0, k);
    Zero(AND, h);
    Blocks(AND, k, h, l, 0, Exp2(k) - 1);
    AndOnes(l, k);
  }

  /** Clearing the k low bits of an n-bit number drops its remainder modulo 2^k. */
  lemma ClearLow(x: nat, k: nat, n: nat)
    requires x < Exp2(k + n)
    ensures Exp2(k) <= Exp2(k + n) && And(x, Exp2(k + n) - Exp2(k)) == x - x % Exp2(k)
  {
    hide Bitwise, Shl, Exp2;
    var h, l := Split(x, k);
    var ones := Exp2(n) - 1;
    ExpSum(k, n);
    ShlIsTimes(h, k);
    ShlIsTimes(ones, k);
    MinusOne(Exp2(n), Exp2(k));
    HighPart(h, l, Exp2(k), Exp2(n));
    Zero(AND, l);
    Blocks(AND, k, h, l, ones, 0);
    AndOnes(h, n);
  }

  lemma MinusOne(e: int, m: int)
    ensures (e - 1) * m == m * e - m
  {
  }

  lemma HighPart(h: int, l: nat, m: int, e: int)
    requires m >= 1 && h * m + l < m * e
    ensures h < e
  {
    assert h >= e ==> (h - e) * m >= 0;
  }

  /** Any number splits into its bits from k up and its bits below k. */
  lemma {:induction false} Split(x: nat, k: nat) returns (h: nat, l: nat)
    ensures l < Exp2(k) && x == Shl(h, k) + l
    ensures h == x / Exp2(k) && l == x % Exp2(k)
  {
    h, l := SplitBits(x, k);
    ShlIsTimes(h, k);
    DivSmall(h, l, Exp2(k));
  }

  lemma {:induction false} SplitBits(x: nat, k: nat) returns (h: nat, l: nat)
    ensures l < Exp2(k) && x == Shl(h, k) + l
  {
    if k == 0 {
      h, l := x, 0;
    } else {
      h, l := SplitBits(x / 2, k - 1);
      l := 2 * l + x % 2;
    }
  }

  /** Filling zero low bits. */
  lemma OrDisjoint(h: nat, k: nat, l: nat)
    requires l < Exp2(k)
    ensures Or(Shl(h, k), l) == Shl(h, k) + l
    ensures Xor(Shl(h, k), l) == Shl(h, k) + l
  {
    hide Bitwise, Shl;
    ShlIsTimes(0, k);
    Zero(OR, h); Zero(OR, l);
    Blocks(OR, k, h, 0, 0, l);
    Blocks(XOR, k, h, 0, 0, l);
  }

  lemma {:induction false} OrAtLeast(a: nat, b: nat)
    ensures Or(a, b) >= a && Or(a, b) >= b
    decreases a + b
  {
    if a + b == 0 {
    } else {
      OrAtLeast(a / 2, b / 2);
    }
  }

  lemma {:induction false} Below(op: BitOp, a: nat, b: nat, k: nat)
    requires a < Exp2(k) && b < Exp2(k)
    ensures Bitwise(op, a, b) < Exp2(k)
  {
    ShlIsTimes(0, k);
    Blocks(op, k, 0, a, 0, b);
  }

  lemma {:induction false} XorCancels(a: nat, b: nat)
    ensures Xor(Xor(a, b), b) == a
    decreases a + b
  {
    if a + b == 0 {
    } else {
      XorCancels(a / 2, b / 2);
      Unfold(XOR, a, b);
      Unfold(XOR, Xor(a, b), b);
    }
  }

  lemma {:induction false} XorSymmetric(a: nat, b: nat)
    ensures Xor(a, b) == Xor(b, a)
    decreases a + b
  {
    if a + b == 0 {
    } else {
      XorSymmetric(a / 2, b / 2);
    }
  }
}
