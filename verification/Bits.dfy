// Bitwise operators on n-bit naturals, bit by bit.
module Bits {

  function Pow2(n: nat): (r: nat)
    ensures r > 0
  {
    if n == 0 then 1 else 2 * Pow2(n - 1)
  }

  function Xor(a: nat, b: nat, n: nat): (r: nat)
    ensures r < Pow2(n)
  {
    if n == 0 then 0 else (if a % 2 == b % 2 then 0 else 1) + 2 * Xor(a / 2, b / 2, n - 1)
  }

  function And(a: nat, b: nat, n: nat): (r: nat)
    ensures r < Pow2(n)
  {
    if n == 0 then 0 else (if a % 2 == 1 && b % 2 == 1 then 1 else 0) + 2 * And(a / 2, b / 2, n - 1)
  }

  lemma {:induction false} XorComm(a: nat, b: nat, n: nat)
    ensures Xor(a, b, n) == Xor(b, a, n)
  {
    if n > 0 {
      XorComm(a / 2, b / 2, n - 1);
    }
  }

  /** Applying the same mask twice restores an n-bit value. */
  lemma {:induction false} XorTwice(a: nat, b: nat, n: nat)
    requires a < Pow2(n)
    ensures Xor(Xor(a, b, n), b, n) == a
  {
    if n > 0 {
      var x := Xor(a, b, n);
      XorTwice(a / 2, b / 2, n - 1);
      assert x % 2 == (if a % 2 == b % 2 then 0 else 1) && x / 2 == Xor(a / 2, b / 2, n - 1);
      assert Xor(x, b, n) == (if x % 2 == b % 2 then 0 else 1) + 2 * (a / 2);
    }
  }

  function Bit(a: nat, k: nat): (b: nat)
    ensures b <= 1
    decreases k
  {
    if k == 0 then a % 2 else Bit(a / 2, k - 1)
  }

  /** Bit k of the operators, for every bit below n. */
  lemma {:induction false} BitOf(a: nat, b: nat, n: nat, k: nat)
    requires k < n
    ensures Bit(Xor(a, b, n), k) == if Bit(a, k) == Bit(b, k) then 0 else 1
    ensures Bit(And(a, b, n), k) == if Bit(a, k) == 1 && Bit(b, k) == 1 then 1 else 0
    decreases k
  {
    Halves(a, b, n);
    if k > 0 {
      BitOf(a / 2, b / 2, n - 1, k - 1);
    }
  }

  lemma Halves(a: nat, b: nat, n: nat)
    requires n > 0
    ensures Xor(a, b, n) % 2 == (if a % 2 == b % 2 then 0 else 1) && Xor(a, b, n) / 2 == Xor(a / 2, b / 2, n - 1)
    ensures And(a, b, n) % 2 == (if a % 2 == 1 && b % 2 == 1 then 1 else 0)
    ensures And(a, b, n) / 2 == And(a / 2, b / 2, n - 1)
  {
  }

  lemma {:induction false} XorSelf(a: nat, n: nat)
    ensures Xor(a, a, n) == 0
  {
    if n > 0 {
      XorSelf(a / 2, n - 1);
    }
  }

  lemma {:induction false} XorZero(a: nat, n: nat)
    requires a < Pow2(n)
    ensures Xor(a, 0, n) == a
  {
    if n > 0 {
      XorZero(a / 2, n - 1);
    }
  }

  /** A mask of k bits leaves the bits from k on. */
  lemma {:induction false} XorLow(a: nat, b: nat, k: nat, n: nat)
    requires k <= n && a < Pow2(n) && b < Pow2(k)
    ensures Xor(a, b, n) == a - a % Pow2(k) + Xor(a % Pow2(k), b, k)
  {
    if k == 0 {
      XorZero(a, n);
    } else {
      XorLow(a / 2, b / 2, k - 1, n - 1);
      ModDouble(a, Pow2(k - 1));
      XorLowStep(a, b, k, a / 2 % Pow2(k - 1));
    }
  }

  lemma XorLowStep(a: nat, b: nat, k: nat, r: nat)
    requires k > 0 && a % Pow2(k) == a % 2 + 2 * r
    ensures Xor(a % Pow2(k), b, k) == (if a % 2 == b % 2 then 0 else 1) + 2 * Xor(r, b / 2, k - 1)
  {
    var l := a % Pow2(k);
    assert l % 2 == a % 2 && l / 2 == r;
  }

  lemma {:induction false} AndOnes(a: nat, n: nat)
    requires a < Pow2(n)
    ensures And(a, Pow2(n) - 1, n) == a
  {
    if n > 0 {
      assert (Pow2(n) - 1) % 2 == 1 && (Pow2(n) - 1) / 2 == Pow2(n - 1) - 1;
      AndOnes(a / 2, n - 1);
    }
  }

  /** Masking with ~(2^k - 1) rounds down to a multiple of 2^k. */
  lemma {:induction false} AndHighMask(a: nat, k: nat, n: nat)
    requires k <= n && a < Pow2(n)
    ensures Pow2(k) <= Pow2(n)
    ensures And(a, Pow2(n) - Pow2(k), n) == a - a % Pow2(k)
  {
    if k == 0 {
      AndOnes(a, n);
    } else {
      AndHighMask(a / 2, k - 1, n - 1);
      var p, q := Pow2(n - 1), Pow2(k - 1);
      assert Pow2(n) - Pow2(k) == 2 * (p - q);
      AndEven(a, p - q, n);
      ModDouble(a, q);
    }
  }

  lemma AndEven(a: nat, m: nat, n: nat)
    requires n > 0
    ensures And(a, 2 * m, n) == 2 * And(a / 2, m, n - 1)
  {
    assert (2 * m) % 2 == 0 && (2 * m) / 2 == m;
  }

  lemma ModDouble(a: nat, p: nat)
    requires p > 0
    ensures a % (2 * p) == a % 2 + 2 * (a / 2 % p)
  {
    var q := a / 2 / p;
    assert a / 2 == q * p + a / 2 % p;
    var r := a % 2 + 2 * (a / 2 % p);
    assert a == q * (2 * p) + r by {
      assert q * (2 * p) == 2 * (q * p);
    }
    assert 0 <= r < 2 * p;
    ModUnique(a, 2 * p, q, r);
  }

  lemma ModUnique(a: int, m: nat, q: int, r: nat)
    requires r < m && a == q * m + r
    ensures a % m == r && a / m == q
  {
    assert a == a / m * m + a % m;
    var d := a / m - q;
    assert d * m == r - a % m;
    assert d >= 1 ==> d * m >= m by { assert d >= 1 ==> (d - 1) * m >= 0; }
    assert d <= -1 ==> d * m <= 0 - m by { assert d <= -1 ==> (-1 - d) * m >= 0; }
  }

  lemma {:induction false} Pow2Add(a: nat, b: nat)
    ensures Pow2(a + b) == Pow2(a) * Pow2(b)
  {
    if a > 0 {
      Pow2Add(a - 1, b);
    }
  }

  lemma Pow2Values()
    ensures Pow2(16) == 0x1_0000
    ensures Pow2(32) == 0x1_0000_0000
    ensures Pow2(64) == 0x1_0000_0000_0000_0000
  {
    assert Pow2(4) == 16;
    Pow2Add(4, 4);
    Pow2Add(8, 8);
    Pow2Add(16, 16);
    Pow2Add(32, 32);
  }

  lemma {:induction false} Pow2Mono(a: nat, b: nat)
    requires a <= b
    ensures Pow2(a) <= Pow2(b)
    decreases b
  {
    if a < b {
      Pow2Mono(a, b - 1);
    }
  }
}
