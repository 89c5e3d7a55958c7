// The 64-bit FNV-1a hash the summaries carry.
module Fnv {
  import opened Buffers
  import Bits

  const INIT := 0xcbf29ce484222325
  const PRIME := 0x100000001b3
  const TWO64 := 0x1_0000_0000_0000_0000

  // PRIME * PRIME_INVERSE == 1 + INVERSE_CARRY * TWO64
  const PRIME_INVERSE := 0xce965057aff6957b
  const INVERSE_CARRY := 887285111055

  type Hash = h: int | 0 <= h < TWO64

  /** The byte of a signed byte. */
  function U8(v: int8): (b: byte)
    ensures b == v || b == v + 256
  {
    if v < 0 then v + 256 else v
  }

  function Step(h: Hash, v: byte): Hash {
    Bits.Xor(h, v, 64) * PRIME % TWO64
  }

  /** The state from which v leads to g. */
  function Unstep(g: Hash, v: byte): Hash {
    Bits.Pow2Values();
    Bits.Xor(g * PRIME_INVERSE % TWO64, v, 64)
  }

  /** Multiplying by an odd constant can be undone modulo 2^64. */
  lemma MulInverse(x: Hash, p: nat, q: nat, k: nat)
    requires p * q == 1 + k * TWO64
    ensures x * p % TWO64 * q % TWO64 == x
  {
    var c := x * p / TWO64;
    assert x * p == c * TWO64 + x * p % TWO64;
    var y := x * p % TWO64 * q;
    calc {
      y;
      (x * p - c * TWO64) * q;
      x * p * q - c * TWO64 * q;
      { assert x * p * q == x * (p * q); }
      x * (1 + k * TWO64) - c * TWO64 * q;
      x + (x * k - c * q) * TWO64;
    }
    Bits.ModUnique(y, TWO64, x * k - c * q, x);
  }

  /** Each step is a bijection of the 64-bit states: Unstep undoes it, on both sides. */
  lemma StepBijective(h: Hash, v: byte)
    ensures Unstep(Step(h, v), v) == h
    ensures Step(Unstep(h, v), v) == h
  {
    Bits.Pow2Values();
    assert PRIME * PRIME_INVERSE == 1 + INVERSE_CARRY * TWO64;
    MulInverse(Bits.Xor(h, v, 64), PRIME, PRIME_INVERSE, INVERSE_CARRY);
    Bits.XorTwice(h, v, 64);
    var g := h * PRIME_INVERSE % TWO64;
    Bits.XorTwice(g, v, 64);
    assert PRIME_INVERSE * PRIME == 1 + INVERSE_CARRY * TWO64;
    MulInverse(h, PRIME_INVERSE, PRIME, INVERSE_CARRY);
  }

  /** From one state, different bytes lead to different states. */
  lemma StepSeparates(h: Hash, v: byte, v': byte)
    requires Step(h, v) == Step(h, v')
    ensures v == v'
  {
    Bits.Pow2Values();
    var a, b := Bits.Xor(h, v, 64), Bits.Xor(h, v', 64);
    MulInverse(a, PRIME, PRIME_INVERSE, INVERSE_CARRY);
    MulInverse(b, PRIME, PRIME_INVERSE, INVERSE_CARRY);
    Bits.XorComm(h, v, 64);
    Bits.XorComm(h, v', 64);
    Bits.XorTwice(v, h, 64);
    Bits.XorTwice(v', h, 64);
  }

  ghost function HashBytes(h: Hash, s: Vec): Hash
    decreases |s|
  {
    if s == [] then h else Step(HashBytes(h, s[..|s| - 1]), U8(s[|s| - 1]))
  }

  /** Published values of the 64-bit FNV-1a hash: of nothing, and of the letter a. */
  lemma KnownHashes()
    ensures HashBytes(INIT, []) == 0xcbf29ce484222325
    ensures HashBytes(INIT, [97]) == 0xaf63dc4c8601ec8c
  {
    OneByte(INIT, 97);
    StepOfA();
  }

  lemma StepOfA()
    ensures Step(INIT, 97) == 0xaf63dc4c8601ec8c
  {
    XorOfA();
    var x := 0xcbf29ce484222344 * PRIME;
    assert x == 875948729822 * TWO64 + 0xaf63dc4c8601ec8c;
    Bits.ModUnique(x, TWO64, 875948729822, 0xaf63dc4c8601ec8c);
  }

  lemma XorOfA()
    ensures Bits.Xor(INIT, 97, 64) == 0xcbf29ce484222344
  {
    Bits.Pow2Values();
    assert Bits.Pow2(8) == 256;
    Bits.XorLow(INIT, 97, 8, 64);
    assert Bits.Xor(0x25, 97, 8) == 0x44;
  }

  /** Hashing piece by piece equals hashing the whole. */
  lemma {:induction false} HashConcat(h: Hash, a: Vec, b: Vec)
    ensures HashBytes(h, a + b) == HashBytes(HashBytes(h, a), b)
    decreases |b|
  {
    if b == [] {
      assert a + b == a;
    } else {
      HashConcat(h, a, b[..|b| - 1]);
      assert (a + b)[..|a + b| - 1] == a + b[..|b| - 1];
    }
  }

  /** A hash determines the state it started from. */
  lemma {:induction false} HashInjective(h: Hash, h': Hash, s: Vec)
    requires HashBytes(h, s) == HashBytes(h', s)
    ensures h == h'
    decreases |s|
  {
    if s != [] {
      var t, v := s[..|s| - 1], U8(s[|s| - 1]);
      StepBijective(HashBytes(h, t), v);
      StepBijective(HashBytes(h', t), v);
      HashInjective(h, h', t);
    }
  }

  /** Two buffers that differ in exactly one byte never share a hash. */
  lemma OneByteChangesHash(h: Hash, s: Vec, i: nat, v: int8)
    requires i < |s| && s[i] != v
    ensures HashBytes(h, s) != HashBytes(h, s[i := v])
  {
    var a, b := s[..i], s[i + 1..];
    assert s == a + ([s[i]] + b) && s[i := v] == a + ([v] + b);
    HashConcat(h, a, [s[i]] + b);
    HashConcat(h, a, [v] + b);
    var g := HashBytes(h, a);
    HashConcat(g, [s[i]], b);
    HashConcat(g, [v], b);
    OneByte(g, s[i]);
    OneByte(g, v);
    if HashBytes(g, [s[i]] + b) == HashBytes(g, [v] + b) {
      HashInjective(Step(g, U8(s[i])), Step(g, U8(v)), b);
      StepSeparates(g, U8(s[i]), U8(v));
    }
  }

  lemma OneByte(h: Hash, v: int8)
    ensures HashBytes(h, [v]) == Step(h, U8(v))
  {
    assert [v][..0] == [];
    assert HashBytes(h, []) == h;
  }

  method HashI8Bytes(h0: Hash, buf: Vec) returns (h: Hash)
    ensures h == HashBytes(h0, buf)
  {
    h := h0;
    for i := 0 to |buf|
      invariant h == HashBytes(h0, buf[..i])
    {
      h := Step(h, U8(buf[i]));
      assert buf[..i + 1][..i] == buf[..i];
    }
    assert buf[..|buf|] == buf;
  }

  /** The four little-endian bytes of a 32-bit value. */
  function HashU32(h: Hash, v: nat): Hash {
    Step(Step(Step(Step(h, v % 256), v / 0x100 % 256), v / 0x1_0000 % 256), v / 0x100_0000 % 256)
  }

  /** A 32-bit value is hashed as its four bytes, the least significant first. */
  lemma HashU32Bytes(h: Hash, b0: byte, b1: byte, b2: byte, b3: byte)
    ensures HashU32(h, b0 + 0x100 * b1 + 0x1_0000 * b2 + 0x100_0000 * b3)
         == Step(Step(Step(Step(h, b0), b1), b2), b3)
  {
    BytesOf(b0, b1, b2, b3, b0 + 0x100 * b1 + 0x1_0000 * b2 + 0x100_0000 * b3);
  }

  lemma BytesOf(b0: byte, b1: byte, b2: byte, b3: byte, v: nat)
    requires v == b0 + 0x100 * b1 + 0x1_0000 * b2 + 0x100_0000 * b3
    ensures v % 256 == b0 && v / 0x100 % 256 == b1 && v / 0x1_0000 % 256 == b2 && v / 0x100_0000 % 256 == b3
  {
    DivModUnique(v, 0x100, b1 + 0x100 * b2 + 0x1_0000 * b3, b0);
    DivModUnique(v, 0x1_0000, b2 + 0x100 * b3, b0 + 0x100 * b1);
    DivModUnique(v, 0x100_0000, b3, b0 + 0x100 * b1 + 0x1_0000 * b2);
    DivModUnique(b1 + 0x100 * (b2 + 0x100 * b3), 0x100, b2 + 0x100 * b3, b1);
    DivModUnique(b2 + 0x100 * b3, 0x100, b3, b2);
  }

  ghost function HashPoints(h: Hash, points: seq<nat>): Hash
    decreases |points|
  {
    if points == [] then h else HashU32(HashPoints(h, points[..|points| - 1]), points[|points| - 1])
  }

  lemma PointsGrow(h: Hash, points: seq<nat>, p: nat)
    ensures HashPoints(h, points + [p]) == HashU32(HashPoints(h, points), p)
  {
    assert (points + [p])[..|points|] == points;
  }

  /** Hashing points list by list is hashing them in order. */
  lemma {:induction false} PointsConcat(h: Hash, a: seq<nat>, b: seq<nat>)
    ensures HashPoints(h, a + b) == HashPoints(HashPoints(h, a), b)
    ensures forall p :: HashPoints(h, [p]) == HashU32(h, p)
    decreases |b|
  {
    forall p ensures HashPoints(h, [p]) == HashU32(h, p) {
      PointsGrow(h, [], p);
      assert [] + [p] == [p];
    }
    if b == [] {
      assert a + b == a;
    } else {
      PointsConcat(h, a, b[..|b| - 1]);
      assert (a + b)[..|a + b| - 1] == a + b[..|b| - 1];
    }
  }
}
