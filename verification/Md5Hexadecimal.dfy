/** Words as eight hexadecimal digits, so that the mixing functions can be computed on given words. */
module Md5Hexadecimal {
  import opened Words
  import opened Md5Rounds
  import opened Md5Digits
  import opened Md5Permutation
  import opened Md5Spec

  /** A hexadecimal digit as its binary digits, the highest first. */
  datatype Hex = Hex(d3: bool, d2: bool, d1: bool, d0: bool)

  datatype Numeral = Numeral(h7: Hex, h6: Hex, h5: Hex, h4: Hex, h3: Hex, h2: Hex, h1: Hex, h0: Hex)

  function Bit(d: bool): nat {
    if d then 1 else 0
  }

  function HexValue(h: Hex): (n: nat)
    ensures n < 16
  {
    8 * Bit(h.d3) + 4 * Bit(h.d2) + 2 * Bit(h.d1) + Bit(h.d0)
  }

  function Joined(high: nat, h: Hex): nat {
    16 * high + HexValue(h)
  }

  function Value(w: Numeral): Word {
    0x1000_0000 * HexValue(w.h7) + 0x100_0000 * HexValue(w.h6) + 0x10_0000 * HexValue(w.h5) + 0x1_0000 * HexValue(w.h4)
    + 0x1000 * HexValue(w.h3) + 0x100 * HexValue(w.h2) + 0x10 * HexValue(w.h1) + HexValue(w.h0)
  }

  // ---- Mixing hexadecimal digits -------------------------------------------------

  /** The truth tables of F, G, H and I. */
  function MixBit(round: nat, x: bool, y: bool, z: bool): bool {
    if round == 0 then (if x then y else z)
    else if round == 1 then (if z then x else y)
    else if round == 2 then (x != y) != z
    else y != (x || !z)
  }

  /** Where the mixed digit is m. */
  predicate HexMixes(round: nat, x: Hex, y: Hex, z: Hex, m: Hex) {
    && m.d3 == MixBit(round, x.d3, y.d3, z.d3) && m.d2 == MixBit(round, x.d2, y.d2, z.d2)
    && m.d1 == MixBit(round, x.d1, y.d1, z.d1) && m.d0 == MixBit(round, x.d0, y.d0, z.d0)
  }

  predicate Mixes(round: nat, x: Numeral, y: Numeral, z: Numeral, m: Numeral) {
    && HexMixes(round, x.h7, y.h7, z.h7, m.h7) && HexMixes(round, x.h6, y.h6, z.h6, m.h6)
    && HexMixes(round, x.h5, y.h5, z.h5, m.h5) && HexMixes(round, x.h4, y.h4, z.h4, m.h4)
    && HexMixes(round, x.h3, y.h3, z.h3, m.h3) && HexMixes(round, x.h2, y.h2, z.h2, m.h2)
    && HexMixes(round, x.h1, y.h1, z.h1, m.h1) && HexMixes(round, x.h0, y.h0, z.h0, m.h0)
  }

  function HexAt(w: Numeral, n: nat): Hex {
    if n == 0 then w.h0 else if n == 1 then w.h1 else if n == 2 then w.h2 else if n == 3 then w.h3
    else if n == 4 then w.h4 else if n == 5 then w.h5 else if n == 6 then w.h6 else w.h7
  }

  function BitAt(h: Hex, k: nat): bool {
    if k == 0 then h.d0 else if k == 1 then h.d1 else if k == 2 then h.d2 else h.d3
  }

  /** The number that the digits from the n-th on stand for. */
  function High(w: Numeral, n: nat): nat
    requires n <= 8
    decreases 8 - n
  {
    if n == 8 then 0 else Joined(High(w, n + 1), HexAt(w, n))
  }

  lemma ValueIsHigh(w: Numeral)
    ensures Value(w) == High(w, 0)
  {
    hide HexValue;
    assert High(w, 7) == Joined(0, w.h7);
    assert High(w, 6) == Joined(High(w, 7), w.h6);
    assert High(w, 5) == Joined(High(w, 6), w.h5);
    assert High(w, 4) == Joined(High(w, 5), w.h4);
    assert High(w, 3) == Joined(High(w, 4), w.h3);
    assert High(w, 2) == Joined(High(w, 3), w.h2);
    assert High(w, 1) == Joined(High(w, 2), w.h1);
  }

  lemma DigitJoined(high: nat, h: Hex, k: nat)
    ensures Digit(Joined(high, h), k) == if k < 4 then Bit(BitAt(h, k)) else Digit(high, k - 4)
  {
    hide Digit;
    var x3 := 2 * high + Bit(h.d3);
    var x2 := 2 * x3 + Bit(h.d2);
    var x1 := 2 * x2 + Bit(h.d1);
    assert Joined(high, h) == 2 * x1 + Bit(h.d0);
    hide Joined, HexValue, Bit;
    DigitBehind(x1, h.d0, k);
    if k > 0 { DigitBehind(x2, h.d1, k - 1); }
    if k > 1 { DigitBehind(x3, h.d2, k - 2); }
    if k > 2 { DigitBehind(high, h.d3, k - 3); }
  }

  lemma DigitBehind(u: nat, d: bool, k: nat)
    ensures Digit(2 * u + Bit(d), k) == if k == 0 then Bit(d) else Digit(u, k - 1)
  {
    hide Digit;
    var x := 2 * u + Bit(d);
    if k == 0 {
      DigitZero(x);
    } else {
      DigitNext(x, k);
      assert x / 2 == u;
    }
  }

  lemma {:induction false} DigitHigh(w: Numeral, n: nat, k: nat)
    requires n + k / 4 < 8
    ensures Digit(High(w, n), k) == Bit(BitAt(HexAt(w, n + k / 4), k % 4))
    decreases k
  {
    hide Digit, Joined, HexAt, BitAt;
    DigitJoined(High(w, n + 1), HexAt(w, n), k);
    if k >= 4 {
      DigitHigh(w, n + 1, k - 4);
    }
  }

  lemma DigitValue(w: Numeral, k: nat)
    requires k < 32
    ensures Digit(Value(w), k) == Bit(BitAt(HexAt(w, k / 4), k % 4))
  {
    hide Digit, HexAt, BitAt, High, Value;
    ValueIsHigh(w);
    DigitHigh(w, 0, k);
  }

  lemma MixAt(round: nat, x: Numeral, y: Numeral, z: Numeral, m: Numeral, n: nat, k: nat)
    requires Mixes(round, x, y, z, m)
    ensures BitAt(HexAt(m, n), k)
         == MixBit(round, BitAt(HexAt(x, n), k), BitAt(HexAt(y, n), k), BitAt(HexAt(z, n), k))
  {
    assert HexMixes(round, HexAt(x, n), HexAt(y, n), HexAt(z, n), HexAt(m, n)) by {
      hide HexMixes;
    }
    hide HexAt, Mixes;
    HexMixAt(round, HexAt(x, n), HexAt(y, n), HexAt(z, n), HexAt(m, n), k);
  }

  lemma HexMixAt(round: nat, x: Hex, y: Hex, z: Hex, m: Hex, k: nat)
    requires HexMixes(round, x, y, z, m)
    ensures BitAt(m, k) == MixBit(round, BitAt(x, k), BitAt(y, k), BitAt(z, k))
  {
    hide MixBit;
  }

  function MixWords(round: nat, x: Word, y: Word, z: Word): Word {
    if round == 0 then F(x, y, z) else if round == 1 then G(x, y, z) else if round == 2 then H(x, y, z) else I(x, y, z)
  }

  lemma MixedDigit(round: nat, x: Numeral, y: Numeral, z: Numeral, m: Numeral, k: nat)
    requires k < 32 && Mixes(round, x, y, z, m)
    ensures Digit(MixWords(round, Value(x), Value(y), Value(z)), k) == Digit(Value(m), k)
  {
    hide Digit, Value, HexAt, BitAt, Mixes, F, G, H, I;
    DigitValue(x, k);
    DigitValue(y, k);
    DigitValue(z, k);
    DigitValue(m, k);
    MixAt(round, x, y, z, m, k / 4, k % 4);
    FChooses(Value(x), Value(y), Value(z), k);
    GChooses(Value(x), Value(y), Value(z), k);
    HIsParity(Value(x), Value(y), Value(z), k);
    IFlips(Value(x), Value(y), Value(z), k);
  }

  /** Words mix as their digits do. */
  lemma MixesMix(round: nat, x: Numeral, y: Numeral, z: Numeral, m: Numeral)
    requires Mixes(round, x, y, z, m)
    ensures MixWords(round, Value(x), Value(y), Value(z)) == Value(m)
  {
    hide Digit, Value, Mixes, MixWords;
    var v, w := MixWords(round, Value(x), Value(y), Value(z)), Value(m);
    forall k | 0 <= k < 32
      ensures Digit(v, k) == Digit(w, k)
    {
      MixedDigit(round, x, y, z, m, k);
    }
    hide Pow2;
    Pow2Values();
    SameDigits(v, w, 32);
  }

  // ---- Words spelled out ----------------------------------------------------------

  const X0 := Hex(false, false, false, false)
  const X1 := Hex(false, false, false, true)
  const X2 := Hex(false, false, true, false)
  const X3 := Hex(false, false, true, true)
  const X4 := Hex(false, true, false, false)
  const X5 := Hex(false, true, false, true)
  const X6 := Hex(false, true, true, false)
  const X7 := Hex(false, true, true, true)
  const X8 := Hex(true, false, false, false)
  const X9 := Hex(true, false, false, true)
  const XA := Hex(true, false, true, false)
  const XB := Hex(true, false, true, true)
  const XC := Hex(true, true, false, false)
  const XD := Hex(true, true, false, true)
  const XE := Hex(true, true, true, false)
  const XF := Hex(true, true, true, true)

  lemma DigitValues()
    ensures HexValue(X0) == 0 && HexValue(X1) == 1 && HexValue(X2) == 2 && HexValue(X3) == 3
    ensures HexValue(X4) == 4 && HexValue(X5) == 5 && HexValue(X6) == 6 && HexValue(X7) == 7
    ensures HexValue(X8) == 8 && HexValue(X9) == 9 && HexValue(XA) == 10 && HexValue(XB) == 11
    ensures HexValue(XC) == 12 && HexValue(XD) == 13 && HexValue(XE) == 14 && HexValue(XF) == 15
  {
  }

  // ---- One step on words spelled out ------------------------------------------------

  /** 2^n for the rotations of the algorithm. */
  function Power(n: nat): nat
    requires n < 32
  {
    match n
    case 4 => 0x10
    case 5 => 0x20
    case 6 => 0x40
    case 7 => 0x80
    case 9 => 0x200
    case 10 => 0x400
    case 11 => 0x800
    case 12 => 0x1000
    case 14 => 0x4000
    case 15 => 0x8000
    case 16 => 0x1_0000
    case 17 => 0x2_0000
    case 18 => 0x4_0000
    case 20 => 0x10_0000
    case 21 => 0x20_0000
    case 22 => 0x40_0000
    case 23 => 0x80_0000
    case 25 => 0x200_0000
    case 26 => 0x400_0000
    case 27 => 0x800_0000
    case 28 => 0x1000_0000
    case _ => Pow2(n)
  }

  lemma PowerIsPow2(n: nat)
    requires n < 32
    ensures Power(n) == Pow2(n)
  {
    Pow2Values();
    assert Pow2(4) == 0x10 && Pow2(5) == 0x20 && Pow2(6) == 0x40 && Pow2(7) == 0x80;
    assert Pow2(9) == 0x200 && Pow2(10) == 0x400 && Pow2(11) == 0x800 && Pow2(12) == 0x1000;
    assert Pow2(17) == 2 * Pow2(16) && Pow2(18) == 4 * Pow2(16) && Pow2(20) == 16 * Pow2(16);
    assert Pow2(21) == 2 * Pow2(20) && Pow2(22) == 4 * Pow2(20) && Pow2(23) == 8 * Pow2(20);
    assert Pow2(14) == 0x4000 && Pow2(15) == 0x8000;
    assert Pow2(25) == 2 * Pow2(24) && Pow2(26) == 4 * Pow2(24);
    assert Pow2(27) == 8 * Pow2(24) && Pow2(28) == 16 * Pow2(24);
  }

  /** A sum of at most four words wraps around to w. */
  predicate Wraps(total: nat, w: Word) {
    total == w || total == w + WORD || total == w + 2 * WORD || total == w + 3 * WORD
  }

  lemma WrapsAround(total: nat, w: Word)
    requires Wraps(total, w)
    ensures total % WORD == w
  {
  }

  /**
   Step i on given words: m is the mixed word, `sum` what is rotated, p and q
   the powers of two of the rotation, and r the step's new word.
   */
  lemma StepIs(i: nat, x: Block, a: Numeral, b: Numeral, c: Numeral, d: Numeral,
               m: Numeral, sum: Word, p: nat, q: nat, rotated: Word, r: Numeral)
    requires i < 64 && Mixes(i / 16, b, c, d, m)
    requires Wraps(Value(a) + Value(m) + x[WordIndex(i)] + Sine(i), sum)
    requires p == Power(Shift(i)) && q == Power(32 - Shift(i)) && q > 0
    requires sum % q * p + sum / q == rotated && Wraps(Value(b) + rotated, Value(r))
    requires Steps(i, x, IV) == Quad(Value(a), Value(b), Value(c), Value(d))
    ensures Steps(i + 1, x, IV) == Quad(Value(d), Value(r), Value(b), Value(c))
  {
    hide Mixes, Value, Pow2, Power, Shift, WordIndex, Sine, RotateLeft, F, G, H, I;
    MixesMix(i / 16, b, c, d, m);
    assert Mix(i, Steps(i, x, IV)) == Value(m);
    WrapsAround(Value(a) + Value(m) + x[WordIndex(i)] + Sine(i), sum);
    WrapsAround(Value(b) + rotated, Value(r));
    PowerIsPow2(Shift(i));
    PowerIsPow2(32 - Shift(i));
    RotateSwaps(sum, Shift(i));
  }
}
