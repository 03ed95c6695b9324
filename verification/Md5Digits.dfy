/** What the four mixing functions compute, binary digit by binary digit. */
module Md5Digits {
  import opened Words
  import opened Md5Rounds

  /** Digit k of a word: `(w >> k) & 1`. */
  function Digit(w: nat, k: nat): (d: nat)
    ensures d < 2
  {
    w / Pow2(k) % 2
  }

  lemma DigitZero(w: nat)
    ensures Digit(w, 0) == w % 2
  {
  }

  lemma DigitNext(w: nat, k: nat)
    requires k > 0
    ensures Digit(w, k) == Digit(w / 2, k - 1)
  {
    HalveFirst(w, Pow2(k - 1), Pow2(k));
  }

  lemma HalveFirst(w: nat, p: nat, m: nat)
    requires p > 0 && m == 2 * p
    ensures w / m == w / 2 / p
  {
    var h := w / 2;
    ModUnique(w, m, h / p, 2 * (h % p) + w % 2);
  }

  lemma {:induction false} DigitsOfAnd(x: nat, y: nat, k: nat)
    ensures Digit(BitAnd(x, y), k) == if Digit(x, k) == 1 && Digit(y, k) == 1 then 1 else 0
    decreases k
  {
    AndHalves(x, y);
    hide BitAnd, Digit;
    if k == 0 {
      DigitZero(x);
      DigitZero(y);
      DigitZero(BitAnd(x, y));
    } else {
      DigitNext(x, k);
      DigitNext(y, k);
      DigitNext(BitAnd(x, y), k);
      DigitsOfAnd(x / 2, y / 2, k - 1);
    }
  }

  lemma {:induction false} DigitsOfOr(x: nat, y: nat, k: nat)
    ensures Digit(BitOr(x, y), k) == if Digit(x, k) == 1 || Digit(y, k) == 1 then 1 else 0
    decreases k
  {
    OrHalves(x, y);
    hide BitOr, Digit;
    if k == 0 {
      DigitZero(x);
      DigitZero(y);
      DigitZero(BitOr(x, y));
    } else {
      DigitNext(x, k);
      DigitNext(y, k);
      DigitNext(BitOr(x, y), k);
      DigitsOfOr(x / 2, y / 2, k - 1);
    }
  }

  lemma {:induction false} DigitsOfXor(x: nat, y: nat, k: nat)
    ensures Digit(BitXor(x, y), k) == (Digit(x, k) + Digit(y, k)) % 2
    decreases k
  {
    XorHalves(x, y);
    hide BitXor, Digit;
    if k == 0 {
      DigitZero(x);
      DigitZero(y);
      DigitZero(BitXor(x, y));
    } else {
      DigitNext(x, k);
      DigitNext(y, k);
      DigitNext(BitXor(x, y), k);
      DigitsOfXor(x / 2, y / 2, k - 1);
    }
  }

  lemma AndHalves(x: nat, y: nat)
    ensures BitAnd(x, y) % 2 == (if x % 2 == 1 && y % 2 == 1 then 1 else 0) && BitAnd(x, y) / 2 == BitAnd(x / 2, y / 2)
  {
    var b, r := if x % 2 == 1 && y % 2 == 1 then 1 else 0, BitAnd(x / 2, y / 2);
    assert BitAnd(x, y) == b + 2 * r;
    hide BitAnd;
    Halves(BitAnd(x, y), b, r);
  }

  lemma OrHalves(x: nat, y: nat)
    ensures BitOr(x, y) % 2 == (if x % 2 == 1 || y % 2 == 1 then 1 else 0) && BitOr(x, y) / 2 == BitOr(x / 2, y / 2)
  {
    var b, r := if x % 2 == 1 || y % 2 == 1 then 1 else 0, BitOr(x / 2, y / 2);
    assert BitOr(x, y) == b + 2 * r;
    hide BitOr;
    Halves(BitOr(x, y), b, r);
  }

  lemma XorHalves(x: nat, y: nat)
    ensures BitXor(x, y) % 2 == (x % 2 + y % 2) % 2 && BitXor(x, y) / 2 == BitXor(x / 2, y / 2)
  {
    var b, r := if x % 2 != y % 2 then 1 else 0, BitXor(x / 2, y / 2);
    assert BitXor(x, y) == b + 2 * r;
    hide BitXor;
    Halves(BitXor(x, y), b, r);
  }

  lemma Halves(z: nat, b: nat, r: nat)
    requires b < 2 && z == b + 2 * r
    ensures z % 2 == b && z / 2 == r
  {
  }

  /** `~`, on numbers of n digits. */
  lemma {:induction false} DigitsOfComplement(x: nat, n: nat, k: nat)
    requires x < Pow2(n) && k < n
    ensures Digit(Pow2(n) - 1 - x, k) == 1 - Digit(x, k)
    decreases k
  {
    hide Digit;
    var y := Pow2(n) - 1 - x;
    assert y % 2 == 1 - x % 2 && y / 2 == Pow2(n - 1) - 1 - x / 2;
    if k == 0 {
      DigitZero(x);
      DigitZero(y);
    } else {
      DigitNext(x, k);
      DigitNext(y, k);
      DigitsOfComplement(x / 2, n - 1, k - 1);
    }
  }

  lemma DigitsOfNot(x: Word, k: nat)
    requires k < 32
    ensures Digit(Not(x), k) == 1 - Digit(x, k)
  {
    hide Digit;
    Pow2Values();
    DigitsOfComplement(x, 32, k);
  }

  // ---- The truth tables of F, G, H and I ---------------------------------------

  /** F chooses: where x has the digit 1, y's digit, else z's. */
  lemma FChooses(x: Word, y: Word, z: Word, k: nat)
    requires k < 32
    ensures Digit(F(x, y, z), k) == if Digit(x, k) == 1 then Digit(y, k) else Digit(z, k)
  {
    hide Digit, BitAnd, BitOr, Not;
    DigitsOfNot(x, k);
    DigitsOfAnd(x, y, k);
    DigitsOfAnd(Not(x), z, k);
    DigitsOfOr(And(x, y), And(Not(x), z), k);
  }

  /** G chooses by z: where z has the digit 1, x's digit, else y's. */
  lemma GChooses(x: Word, y: Word, z: Word, k: nat)
    requires k < 32
    ensures Digit(G(x, y, z), k) == if Digit(z, k) == 1 then Digit(x, k) else Digit(y, k)
  {
    hide Digit, BitAnd, BitOr, Not;
    DigitsOfNot(z, k);
    DigitsOfAnd(x, z, k);
    DigitsOfAnd(y, Not(z), k);
    DigitsOfOr(And(x, z), And(y, Not(z)), k);
  }

  /** H is the parity of the three digits. */
  lemma HIsParity(x: Word, y: Word, z: Word, k: nat)
    requires k < 32
    ensures Digit(H(x, y, z), k) == (Digit(x, k) + Digit(y, k) + Digit(z, k)) % 2
  {
    hide Digit, BitXor;
    DigitsOfXor(x, y, k);
    DigitsOfXor(Xor(x, y), z, k);
  }

  /** I differs from y exactly where x has the digit 1 or z the digit 0. */
  lemma IFlips(x: Word, y: Word, z: Word, k: nat)
    requires k < 32
    ensures Digit(I(x, y, z), k)
         == if Digit(x, k) == 1 || Digit(z, k) == 0 then 1 - Digit(y, k) else Digit(y, k)
  {
    hide Digit, BitOr, BitXor, Not;
    DigitsOfNot(z, k);
    DigitsOfOr(x, Not(z), k);
    DigitsOfXor(y, Or(x, Not(z)), k);
  }

  /** Words with the same digits are the same. */
  lemma {:induction false} SameDigits(x: nat, y: nat, n: nat)
    requires x < Pow2(n) && y < Pow2(n) && forall k :: 0 <= k < n ==> Digit(x, k) == Digit(y, k)
    ensures x == y
    decreases n
  {
    if n > 0 {
      DigitZero(x);
      DigitZero(y);
      forall k | 0 <= k < n - 1
        ensures Digit(x / 2, k) == Digit(y / 2, k)
      {
        DigitNext(x, k + 1);
        DigitNext(y, k + 1);
      }
      hide Digit;
      SameDigits(x / 2, y / 2, n - 1);
    }
  }
}
