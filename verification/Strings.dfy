/** PiString and its 32-bit FNV-1a hash (lib/common/string.c). */
module Strings {
  import opened Bits

  const FNV_BASIS := 2166136261
  const FNV_PRIME := 16777619
  /** The inverse of FNV_PRIME modulo 2^32. */
  const FNV_INVERSE := 899433627

  type Hash = h: nat | h < WORD32

  /** One round: mix in a byte, multiply modulo 2^32. */
  function Round(h: Hash, b: byte): Hash {
    (Xor(h, b) * FNV_PRIME) % WORD32
  }

  function HashFrom(h: Hash, s: seq<byte>): Hash
    decreases |s|
  {
    if s == [] then h else HashFrom(Round(h, s[0]), s[1..])
  }

  function HashOf(s: seq<byte>): Hash { HashFrom(FNV_BASIS, s) }

  /** piHashString. */
  method HashString(data: seq<byte>) returns (hash: Hash)
    ensures hash == HashOf(data)
  {
    hash := FNV_BASIS;
    var i := 0;
    while i < |data|
      invariant 0 <= i <= |data|
      invariant HashFrom(hash, data[i..]) == HashOf(data)
    {
      var mixed := Xor(hash, data[i]);
      hash := (mixed * FNV_PRIME) % WORD32;
      i := i + 1;
    }
  }

  lemma {:induction false} HashSnoc(h: Hash, s: seq<byte>, b: byte)
    ensures HashFrom(h, s + [b]) == Round(HashFrom(h, s), b)
    decreases |s|
  {
    hide Round;
    if s == [] {
      assert [] + [b] == [b] && [b][1..] == [];
    } else {
      assert (s + [b])[1..] == s[1..] + [b];
      HashSnoc(Round(h, s[0]), s[1..], b);
    }
  }

  /** The empty string has the offset basis; from the hash of a longer string, multiplying by the inverse of the prime
      and mixing the last byte in again gives the hash of the rest. */
  lemma HashUnwinds(s: seq<byte>, b: byte)
    ensures HashOf([]) == 2166136261
    ensures Xor((HashOf(s + [b]) * 899433627) % 0x1_0000_0000, b) == HashOf(s)
  {
    hide HashFrom, Xor;
    HashSnoc(FNV_BASIS, s, b);
    EmptyHash(FNV_BASIS);
    MixBelow(HashOf(s), b);
    TimesPrimeInverts(Xor(HashOf(s), b));
    XorCancels(HashOf(s), b);
  }

  lemma EmptyHash(h: Hash)
    ensures HashFrom(h, []) == h
  {
  }

  lemma MixBelow(h: Hash, b: byte)
    ensures Xor(h, b) < WORD32
  {
    ExpValues();
    Below(XOR, h, b, 32);
  }

  // ---- Each round is a bijection on states ----

  lemma TimesPrimeInverts(x: nat)
    requires x < WORD32
    ensures (((x * FNV_PRIME) % WORD32) * FNV_INVERSE) % WORD32 == x
    ensures (((x * FNV_INVERSE) % WORD32) * FNV_PRIME) % WORD32 == x
  {
    ModTimes(x * FNV_PRIME, FNV_INVERSE);
    ModTimes(x * FNV_INVERSE, FNV_PRIME);
    ProductIsOne(x);
  }

  lemma ProductIsOne(x: nat)
    requires x < WORD32
    ensures (x * FNV_PRIME * FNV_INVERSE) % WORD32 == x && (x * FNV_INVERSE * FNV_PRIME) % WORD32 == x
  {
    var n := x * FNV_PRIME * FNV_INVERSE;
    assert n == (3513497 * x) * WORD32 + x;
    DivSmall(3513497 * x, x, WORD32);
    assert x * FNV_INVERSE * FNV_PRIME == n;
  }

  lemma ModTimes(a: nat, c: nat)
    ensures ((a % WORD32) * c) % WORD32 == (a * c) % WORD32
  {
    var q, r := a / WORD32, a % WORD32;
    assert a * c == (q * WORD32) * c + r * c;
    assert (q * WORD32) * c == WORD32 * (q * c);
  }

  /** The previous state of a round. */
  function Unround(h: Hash, b: byte): Hash {
    XorSmall((h * FNV_INVERSE) % WORD32, b);
    Xor((h * FNV_INVERSE) % WORD32, b)
  }

  lemma XorSmall(h: Hash, b: byte)
    ensures Xor(h, b) < WORD32
  {
    hide Exp2, Bitwise;
    ExpValues();
    Below(XOR, h, b, 32);
  }

  lemma RoundInverts(h: Hash, b: byte)
    ensures Unround(Round(h, b), b) == h && Round(Unround(h, b), b) == h
  {
    XorSmall(h, b);
    TimesPrimeInverts(Xor(h, b));
    XorCancels(h, b);
    var m := (h * FNV_INVERSE) % WORD32;
    XorCancels(m, b);
    TimesPrimeInverts(h);
  }

  /** Equal suffixes neither create nor hide a collision. */
  lemma {:induction false} SuffixCancels(h: Hash, h': Hash, s: seq<byte>)
    ensures HashFrom(h, s) == HashFrom(h', s) <==> h == h'
    decreases |s|
  {
    if s == [] {
    } else {
      SuffixCancels(Round(h, s[0]), Round(h', s[0]), s[1..]);
      RoundInverts(h, s[0]);
      RoundInverts(h', s[0]);
    }
  }

  lemma {:induction false} HashConcat(h: Hash, s: seq<byte>, t: seq<byte>)
    ensures HashFrom(h, s + t) == HashFrom(HashFrom(h, s), t)
    decreases |s|
  {
    if s == [] {
      assert s + t == t;
    } else {
      assert (s + t)[1..] == s[1..] + t;
      HashConcat(Round(h, s[0]), s[1..], t);
    }
  }

  /** From one state, different bytes lead to different states. */
  lemma ByteMatters(h: Hash, b: byte, b': byte)
    ensures Round(h, b) == Round(h, b') <==> b == b'
  {
    XorSmall(h, b);
    XorSmall(h, b');
    TimesPrimeInverts(Xor(h, b));
    TimesPrimeInverts(Xor(h, b'));
    XorSymmetric(h, b); XorSymmetric(h, b');
    XorCancels(b, h); XorCancels(b', h);
  }

  /** Changing one byte of a string always changes its hash. */
  lemma NoSingleByteCollision(s: seq<byte>, i: nat, b: byte)
    requires i < |s|
    ensures HashOf(s[i := b]) == HashOf(s) <==> b == s[i]
  {
    var pre, post := s[..i], s[i + 1..];
    var h := HashOf(pre);
    assert s == pre + ([s[i]] + post) && s[i := b] == pre + ([b] + post);
    HashConcat(FNV_BASIS, pre, [s[i]] + post);
    HashConcat(FNV_BASIS, pre, [b] + post);
    assert ([b] + post)[1..] == post && ([s[i]] + post)[1..] == post;
    SuffixCancels(Round(h, s[i]), Round(h, b), post);
    ByteMatters(h, s[i], b);
  }

  // ---- PiString ----

  /** A string with its cached hash. */
  datatype PiString = PiString(chars: seq<byte>, hash: Hash) {
    /** What every piInitString* establishes. */
    predicate Hashed() { hash == HashOf(chars) }
  }

  /** piStringEquals: hash, then length, then characters. */
  predicate StringEquals(a: PiString, b: PiString) {
    a.hash == b.hash && |a.chars| == |b.chars| && a.chars == b.chars
  }

  lemma StringEqualsIsEquality(a: PiString, b: PiString)
    requires a.Hashed() && b.Hashed()
    ensures StringEquals(a, b) <==> a.chars == b.chars
  {
  }
}
