/**
 The width of a word. The comment beside the typedef of UINT4 promises four
 bytes, its type promises at least four. Where `unsigned long` has eight,
 ROTATE_LEFT is no rotation of 32 bits any more.
 */
module Md5Width {
  import opened Words
  import opened Md5Rounds
  import opened Md5Permutation
  import opened Md5Spec
  import opened Md5Hexadecimal
  import Md5Codec

  const WIDE := WORD * WORD

  /** The low 32 bits of ROTATE_LEFT(x, n) on 64-bit words. */
  function WideRotate(x: nat, n: nat): nat
    requires x < WIDE && 0 < n < 32
  {
    WideOr(x, Pow2(n), Pow2(32 - n))
  }

  function WideOr(x: nat, p: nat, q: nat): nat
    requires p > 0 && q > 0
  {
    BitOr(WideLeft(x, p), Right(x, q)) % WORD
  }

  /** `x << n` on 64 bits, for p == 2^n */
  function WideLeft(x: nat, p: nat): nat {
    Positive(x, p);
    x * p % WIDE
  }

  /** `x >> n`, for q == 2^n */
  function Right(x: nat, q: nat): nat
    requires q > 0
  {
    Quotient(x, q);
    x / q
  }

  lemma Positive(x: nat, p: nat)
    ensures x * p >= 0
  {
  }

  lemma Quotient(x: nat, q: nat)
    requires q > 0
    ensures x / q >= 0
  {
  }

  /** Or works digit by digit, so its low digits depend on the low digits only. */
  lemma OrLow(x: nat, y: nat, n: nat)
    ensures BitOr(x, y) % Pow2(n) == BitOr(x % Pow2(n), y % Pow2(n))
  {
    hide BitOr, Pow2;
    var p := Pow2(n);
    DivMod(x, p);
    DivMod(y, p);
    OrBlocks(x / p, x % p, y / p, y % p, n);
    BitsBounded(x % p, y % p, n);
    ModUnique(BitOr(x, y), p, BitOr(x / p, y / p), BitOr(x % p, y % p));
  }

  lemma OrDigit(b: nat, x: nat, c: nat, y: nat)
    requires b < 2 && c < 2
    ensures BitOr(b + 2 * x, c + 2 * y) == (if b == 1 || c == 1 then 1 else 0) + 2 * BitOr(x, y)
  {
  }

  lemma LeftLow(hi: nat, lo: nat, p: nat)
    ensures lo * p >= 0 && WideLeft(hi * WORD + lo, p) % WORD == lo * p % WORD
  {
    Positive(lo, p);
    var y := (hi * WORD + lo) * p;
    assert y == hi * p * WORD + lo * p;
    ModUnique(y % WIDE, WORD, hi * p + lo * p / WORD - y / WIDE * WORD, lo * p % WORD);
  }

  lemma RightSplit(hi: nat, lo: nat, p: nat, q: nat)
    requires q > 0 && p * q == WORD
    ensures hi * p >= 0 && Right(hi * WORD + lo, q) == hi * p + Right(lo, q)
  {
    Positive(hi, p);
    assert hi * WORD == hi * p * q;
    ModUnique(hi * WORD + lo, q, hi * p + lo / q, lo % q);
  }

  /** The wide macro's low word: the low word shifted, or-ed with the high word's digits above its own. */
  lemma WideLow(hi: nat, lo: nat, p: nat, q: nat)
    requires p > 0 && q > 0 && p * q == WORD
    ensures hi * p >= 0 && lo * p >= 0
    ensures WideOr(hi * WORD + lo, p, q) == BitOr(lo * p % WORD, (hi * p + Right(lo, q)) % WORD)
  {
    hide BitOr, WideLeft, Right;
    var x := hi * WORD + lo;
    LeftLow(hi, lo, p);
    RightSplit(hi, lo, p, q);
    OrLowWord(WideLeft(x, p), Right(x, q));
  }

  lemma OrLowWord(a: nat, b: nat)
    ensures BitOr(a, b) % WORD == BitOr(a % WORD, b % WORD)
  {
    Pow2Values();
    OrLow(a, b, 32);
  }

  /** The n low digits and the others can be or-ed apart. */
  lemma {:induction false} OrBlocks(u: nat, r: nat, v: nat, s: nat, n: nat)
    requires r < Pow2(n) && s < Pow2(n)
    ensures BitOr(Above(u, n, r), Above(v, n, s)) == Above(BitOr(u, v), n, BitOr(r, s))
    decreases n
  {
    hide BitOr, Pow2, Above;
    if n == 0 {
      PowZero(u, v, BitOr(u, v));
      OrZero(0);
    } else {
      PowNext(n);
      OrBlocks(u, r / 2, v, s / 2, n - 1);
      OrBlocksNext(u, r % 2, r / 2, v, s % 2, s / 2, n);
    }
  }

  lemma OrBlocksNext(u: nat, b: nat, r: nat, v: nat, c: nat, s: nat, n: nat)
    requires b < 2 && c < 2 && n > 0
    requires BitOr(Above(u, n - 1, r), Above(v, n - 1, s)) == Above(BitOr(u, v), n - 1, BitOr(r, s))
    ensures BitOr(Above(u, n, b + 2 * r), Above(v, n, c + 2 * s))
         == Above(BitOr(u, v), n, BitOr(b + 2 * r, c + 2 * s))
  {
    hide BitOr, Above;
    AboveNext(u, n, b, r);
    AboveNext(v, n, c, s);
    AboveNext(BitOr(u, v), n, if b == 1 || c == 1 then 1 else 0, BitOr(r, s));
    OrDigit(b, Above(u, n - 1, r), c, Above(v, n - 1, s));
    OrDigit(b, r, c, s);
  }

  /** u's digits above n low ones. */
  function Above(u: nat, n: nat, low: nat): nat {
    Positive(u, Pow2(n));
    u * Pow2(n) + low
  }

  lemma AboveNext(u: nat, n: nat, b: nat, low: nat)
    requires n > 0
    ensures Above(u, n, b + 2 * low) == b + 2 * Above(u, n - 1, low)
  {
    var p := Pow2(n - 1);
    assert u * (2 * p) == 2 * (u * p);
  }

  lemma PowNext(n: nat)
    requires n > 0
    ensures Pow2(n) == 2 * Pow2(n - 1)
  {
  }

  lemma PowZero(u: nat, v: nat, w: nat)
    ensures Above(u, 0, 0) == u && Above(v, 0, 0) == v && Above(w, 0, 0) == w
    ensures Pow2(0) == 1
  {
  }

  /** The wide macro rotates the low word with the high word's low digits or-ed into what it shifts left. */
  lemma WideRotates(hi: Word, lo: Word, n: nat)
    requires 0 < n < 32
    ensures var p, q := Pow2(n), Pow2(32 - n);
            WideRotate(hi * WORD + lo, n) == BitOr(lo % q, hi % q) * p + lo / q
  {
    hide Pow2, BitOr, WideOr, WideLeft;
    var p, q := Pow2(n), Pow2(32 - n);
    Complement(n);
    WideLow(hi, lo, p, q);
    ShiftKeepsLow(lo, p, q);
    ShiftKeepsLow(hi, p, q);
    DivideBelow(lo, p, q);
    JoinBelow(hi * p, hi % q, lo / q, p, q);
    OrBlocks(lo % q, 0, hi % q, lo / q, n);
    OrCommutes(0, lo / q);
    OrZero(lo / q);
  }

  lemma JoinBelow(y: nat, l: nat, r: nat, p: nat, q: nat)
    requires p > 0 && q > 0 && p * q == WORD && y % WORD == l * p && r < p && l < q
    ensures l * p >= 0 && (y + r) % WORD == l * p + r
  {
    MulMonotone(l + 1, q, p);
    ModUnique(y + r, WORD, y / WORD, l * p + r);
  }

  /** Every binary digit of v is one of u's. */
  predicate Covers(u: nat, v: nat) {
    BitOr(u, v) == u
  }

  /**
   On 64-bit words the macro's low word is the rotation of the low word exactly
   when every digit that moves left out of the high word's low part meets a
   digit of the low word that is set already.
   */
  lemma WideRotateExact(hi: Word, lo: Word, n: nat)
    requires 0 < n < 32
    ensures var q := Pow2(32 - n);
            WideRotate(hi * WORD + lo, n) == RotateLeft(lo, n) <==> Covers(lo % q, hi % q)
  {
    hide Pow2, BitOr, WideRotate, RotateLeft;
    var p, q := Pow2(n), Pow2(32 - n);
    WideRotates(hi, lo, n);
    RotateSwaps(lo, n);
    SameMultiple(BitOr(lo % q, hi % q), lo % q, p);
  }

  lemma SameMultiple(x: nat, y: nat, p: nat)
    requires p > 0
    ensures x * p == y * p <==> x == y
  {
  }

  /** After an addition that carried once, the macro still rotates odd sums, and no even ones. */
  lemma CarrySpoilsEven(lo: Word, n: nat)
    requires 0 < n < 32
    ensures WideRotate(WORD + lo, n) == RotateLeft(lo, n) <==> lo % 2 == 1
  {
    hide WideRotate, RotateLeft, Covers, BitOr;
    var q := Pow2(32 - n);
    WideRotateExact(1, lo, n);
    EvenPower(lo, 32 - n);
    OrOne(lo % q);
  }

  lemma EvenPower(x: nat, n: nat)
    requires n > 0
    ensures x % Pow2(n) % 2 == x % 2 && 1 % Pow2(n) == 1
  {
    hide Pow2;
    PowNext(n);
    EvenModulus(x, Pow2(n - 1), Pow2(n));
  }

  lemma EvenModulus(x: nat, p: nat, m: nat)
    requires p > 0 && m == 2 * p
    ensures x % m % 2 == x % 2 && 1 % m == 1
  {
    ModByParts(x, p);
    ModUnique(1, m, 0, 1);
    var low := x / 2 % p;
    assert x % m == x % 2 + 2 * low;
  }

  lemma OrOne(x: nat)
    ensures Covers(x, 1) <==> x % 2 == 1
  {
    OrZero(x / 2);
    OrDigit(x % 2, x / 2, 1, 0);
  }

  /**
   The sum that the first macro line rotates, before any reduction. The high
   digits of ~b do no harm here, because d has none.
   */
  function FirstSum(message: seq<Byte>): nat {
    IV.a + F(IV.b, IV.c, IV.d) + Md5Codec.Unpacked(Padded(message)[..64])[0] + Sine(0)
  }

  /** The first line of the message "a" carries into the high word and is spoilt; that of "" carries and is not. */
  lemma FirstLines()
    ensures FirstSum([0x61]) == 0x1_d76b_24d8
    ensures WideRotate(FirstSum([0x61]), S11) != RotateLeft(FirstSum([0x61]) % WORD, S11)
    ensures FirstSum([]) == 0x1_d76a_a4f7
    ensures WideRotate(FirstSum([]), S11) == RotateLeft(FirstSum([]) % WORD, S11)
  {
    hide WideRotate, RotateLeft, F, Md5Codec.Unpacked, Padded;
    FirstMix();
    FirstWord([0x61]);
    FirstWord([]);
    assert FirstSum([0x61]) == 0x1_d76b_24d8 && FirstSum([]) == 0x1_d76a_a4f7;
    hide *;
    CarrySpoilsEven(0xd76b_24d8, S11);
    CarrySpoilsEven(0xd76a_a4f7, S11);
  }

  lemma FirstMix()
    ensures F(IV.b, IV.c, IV.d) == 0x98badcfe
  {
    hide HexValue, F;
    DigitValues();
    var b, c := Numeral(XE, XF, XC, XD, XA, XB, X8, X9), Numeral(X9, X8, XB, XA, XD, XC, XF, XE);
    MixesMix(0, b, c, Numeral(X1, X0, X3, X2, X5, X4, X7, X6), c);
  }

  lemma FirstWord(message: seq<Byte>)
    requires |message| < 2
    ensures Md5Codec.Unpacked(Padded(message)[..64])[0]
         == if message == [] then 0x80 else 0x8000 + message[0] as int
  {
    var padded := Padded(message);
    assert ZeroCount(|message|) >= 2;
    assert padded[|message|] == 0x80 && padded[2] == 0 && padded[3] == 0;
  }
}
