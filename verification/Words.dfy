/**
 Unsigned machine arithmetic as the sources use it: bytes, 32-bit words with
 wrap-around written out, and the bitwise operators on non-negative integers.
 `x >> n` of an unsigned `x` is `x / Pow2(n)`, `x & (2^n - 1)` is `x % Pow2(n)`.
 */
module Words {

  const WORD := 0x1_0000_0000
  const WORD_MAX := 0xffff_ffff

  type Byte = x: int | 0 <= x < 0x100
  type Word = x: int | 0 <= x < 0x1_0000_0000

  function Min(x: int, y: int): int {
    if x < y then x else y
  }

  function Max(x: int, y: int): int {
    if x < y then y else x
  }

  function Pow2(n: nat): (p: nat)
    ensures p >= 1
  {
    if n == 0 then 1 else 2 * Pow2(n - 1)
  }

  lemma {:induction false} Pow2Adds(m: nat, n: nat)
    ensures Pow2(m + n) == Pow2(m) * Pow2(n)
  {
    if m == 0 {
    } else {
      Pow2Adds(m - 1, n);
    }
  }

  lemma Pow2Values()
    ensures Pow2(8) == 0x100 && Pow2(16) == 0x1_0000 && Pow2(24) == 0x100_0000 && Pow2(32) == 0x1_0000_0000
  {
    assert Pow2(8) == 0x100;
    Pow2Adds(8, 8);
    Pow2Adds(16, 8);
    Pow2Adds(16, 16);
  }

  /** Bitwise or, one binary digit at a time. */
  function BitOr(x: nat, y: nat): nat
    decreases x + y
  {
    if x == 0 && y == 0 then 0
    else (if x % 2 == 1 || y % 2 == 1 then 1 else 0) + 2 * BitOr(x / 2, y / 2)
  }

  /** Bitwise and. */
  function BitAnd(x: nat, y: nat): (z: nat)
    ensures z <= x && z <= y
    decreases x + y
  {
    if x == 0 && y == 0 then 0
    else (if x % 2 == 1 && y % 2 == 1 then 1 else 0) + 2 * BitAnd(x / 2, y / 2)
  }

  /** Bitwise exclusive or. */
  function BitXor(x: nat, y: nat): nat
    decreases x + y
  {
    if x == 0 && y == 0 then 0
    else (if x % 2 != y % 2 then 1 else 0) + 2 * BitXor(x / 2, y / 2)
  }

  /** An operator's result has no more binary digits than its operands. */
  lemma {:induction false} BitsBounded(x: nat, y: nat, n: nat)
    requires x < Pow2(n) && y < Pow2(n)
    ensures BitOr(x, y) < Pow2(n) && BitXor(x, y) < Pow2(n)
    decreases n
  {
    if n == 0 {
    } else {
      BitsBounded(x / 2, y / 2, n - 1);
    }
  }

  /** `|` of numbers that share no binary digit is their sum. */
  lemma {:induction false} OrDisjoint(x: nat, y: nat, n: nat)
    requires y < Pow2(n)
    ensures BitOr(x * Pow2(n), y) == x * Pow2(n) + y
    decreases n
  {
    if n == 0 {
      OrZero(x);
    } else {
      var w := x * Pow2(n - 1);
      assert x * Pow2(n) == 2 * w;
      OrDisjoint(x, y / 2, n - 1);
      hide Pow2;
      assert (2 * w) / 2 == w && (2 * w) % 2 == 0;
    }
  }

  lemma {:induction false} OrZero(x: nat)
    ensures BitOr(x, 0) == x
  {
    if x == 0 {
    } else {
      OrZero(x / 2);
    }
  }

  function Or(x: Word, y: Word): Word {
    Pow2Values();
    BitsBounded(x, y, 32);
    BitOr(x, y)
  }

  function And(x: Word, y: Word): Word {
    BitAnd(x, y)
  }

  function Xor(x: Word, y: Word): Word {
    Pow2Values();
    BitsBounded(x, y, 32);
    BitXor(x, y)
  }

  /** `~x` */
  function Not(x: Word): Word {
    WORD_MAX - x
  }

  /** Unsigned addition wraps. */
  function Add(x: Word, y: Word): Word {
    (x + y) % WORD
  }

  function Sub(x: Word, y: Word): Word {
    (x - y) % WORD
  }

  lemma AddSub(x: Word, y: Word)
    ensures Sub(Add(x, y), y) == x && Add(Sub(x, y), y) == x
  {
  }

  lemma {:induction false} OrCommutes(x: nat, y: nat)
    ensures BitOr(x, y) == BitOr(y, x)
    decreases x + y
  {
    if x == 0 && y == 0 {
    } else {
      OrCommutes(x / 2, y / 2);
    }
  }

  /** Masking with 2^n - 1 keeps the n low digits. */
  lemma {:induction false} AndMask(x: nat, n: nat)
    ensures BitAnd(x, Pow2(n) - 1) == x % Pow2(n)
    decreases n
  {
    if n == 0 {
    } else if x == 0 && Pow2(n) == 1 {
    } else {
      AndMask(x / 2, n - 1);
      assert (Pow2(n) - 1) / 2 == Pow2(n - 1) - 1;
      ModByParts(x, Pow2(n - 1));
    }
  }

  lemma ModByParts(x: nat, p: nat)
    requires p > 0
    ensures x % (2 * p) == x % 2 + 2 * (x / 2 % p)
  {
    var h := x / 2;
    ModUnique(x, 2 * p, h / p, x % 2 + 2 * (h % p));
  }

  /** A quotient and a remainder in range are the quotient and the remainder. */
  lemma ModUnique(x: int, m: int, q: int, r: int)
    requires x == q * m + r && 0 <= r < m
    ensures x / m == q && x % m == r
  {
    var d := x / m - q;
    assert d * m == r - x % m;
    if d >= 1 {
      MulAtLeast(d, m);
    } else if d <= -1 {
      MulAtLeast(-d, m);
    }
  }

  lemma MulAtLeast(d: int, m: int)
    requires d >= 1 && m >= 0
    ensures d * m >= m
  {
  }
}
