/** The MD5 block function: its 64 unrolled steps, and RFC 1321's description of them. */
module Md5Rounds {
  import opened Words

  /** The four chaining variables A, B, C, D. */
  datatype Quad = Quad(a: Word, b: Word, c: Word, d: Word)

  type Block = x: seq<Word> | |x| == 16 witness seq(16, _ => 0)

  const S11 := 7
  const S12 := 12
  const S13 := 17
  const S14 := 22
  const S21 := 5
  const S22 := 9
  const S23 := 14
  const S24 := 20
  const S31 := 4
  const S32 := 11
  const S33 := 16
  const S34 := 23
  const S41 := 6
  const S42 := 10
  const S43 := 15
  const S44 := 21

  function F(x: Word, y: Word, z: Word): Word { Or(And(x, y), And(Not(x), z)) }
  function G(x: Word, y: Word, z: Word): Word { Or(And(x, z), And(y, Not(z))) }
  function H(x: Word, y: Word, z: Word): Word { Xor(Xor(x, y), z) }
  function I(x: Word, y: Word, z: Word): Word { Xor(y, Or(x, Not(z))) }

  function RotateLeft(x: Word, n: nat): Word
    requires 0 < n < 32
  {
    HighBits(x, n);
    Or(x * Pow2(n) % WORD, x / Pow2(32 - n))
  }

  /** One macro invocation: the new value of its first argument. */
  function Line(f: Word, a: Word, b: Word, x: Word, s: nat, ac: Word): Word
    requires 0 < s < 32
  {
    Add(RotateLeft(Add(a, Add(Add(f, x), ac)), s), b)
  }

  function FF(a: Word, b: Word, c: Word, d: Word, x: Word, s: nat, ac: Word): Word
    requires 0 < s < 32
  {
    Line(F(b, c, d), a, b, x, s, ac)
  }

  function GG(a: Word, b: Word, c: Word, d: Word, x: Word, s: nat, ac: Word): Word
    requires 0 < s < 32
  {
    Line(G(b, c, d), a, b, x, s, ac)
  }

  function HH(a: Word, b: Word, c: Word, d: Word, x: Word, s: nat, ac: Word): Word
    requires 0 < s < 32
  {
    Line(H(b, c, d), a, b, x, s, ac)
  }

  function II(a: Word, b: Word, c: Word, d: Word, x: Word, s: nat, ac: Word): Word
    requires 0 < s < 32
  {
    Line(I(b, c, d), a, b, x, s, ac)
  }

  lemma HighBits(x: Word, n: nat)
    requires 0 < n < 32
    ensures 0 <= x / Pow2(32 - n) < WORD
  {
    hide Pow2;
    Complement(n);
    DivideBelow(x, Pow2(n), Pow2(32 - n));
    MulMonotone(1, Pow2(32 - n), Pow2(n));
  }

  lemma Complement(n: nat)
    requires n <= 32
    ensures Pow2(n) * Pow2(32 - n) == WORD
  {
    Pow2Values();
    Pow2Adds(n, 32 - n);
  }

  lemma DivideBelow(x: nat, p: nat, q: nat)
    requires q > 0 && x < p * q
    ensures x / q < p
  {
    var h := x / q;
    if h >= p {
      MulMonotone(p, h, q);
    }
  }

  lemma MulMonotone(x: nat, y: nat, z: nat)
    requires x <= y
    ensures x * z <= y * z
  {
  }

  lemma DivMod(x: nat, p: nat)
    requires p > 0
    ensures x == x / p * p + x % p && 0 <= x % p < p && x / p >= 0
  {
  }

  lemma Expand(h: int, q: int, l: int, p: int)
    ensures (h * q + l) * p == h * (p * q) + l * p
  {
  }

  // ---- RFC 1321, section 3.4 -------------------------------------------

  /** The sine table: T[i + 1] of round r + 1 is Sine(16 * r + i). */
  function Sine(i: nat): Word
    requires i < 64
  {
    if i < 16 then Sine1(i) else if i < 32 then Sine2(i - 16) else if i < 48 then Sine3(i - 32) else Sine4(i - 48)
  }

  function Sine1(i: nat): Word
    requires i < 16
  {
    match i
    case 0 => 0xd76aa478
    case 1 => 0xe8c7b756
    case 2 => 0x242070db
    case 3 => 0xc1bdceee
    case 4 => 0xf57c0faf
    case 5 => 0x4787c62a
    case 6 => 0xa8304613
    case 7 => 0xfd469501
    case 8 => 0x698098d8
    case 9 => 0x8b44f7af
    case 10 => 0xffff5bb1
    case 11 => 0x895cd7be
    case 12 => 0x6b901122
    case 13 => 0xfd987193
    case 14 => 0xa679438e
    case _ => 0x49b40821
  }

  function Sine2(i: nat): Word
    requires i < 16
  {
    match i
    case 0 => 0xf61e2562
    case 1 => 0xc040b340
    case 2 => 0x265e5a51
    case 3 => 0xe9b6c7aa
    case 4 => 0xd62f105d
    case 5 => 0x2441453
    case 6 => 0xd8a1e681
    case 7 => 0xe7d3fbc8
    case 8 => 0x21e1cde6
    case 9 => 0xc33707d6
    case 10 => 0xf4d50d87
    case 11 => 0x455a14ed
    case 12 => 0xa9e3e905
    case 13 => 0xfcefa3f8
    case 14 => 0x676f02d9
    case _ => 0x8d2a4c8a
  }

  function Sine3(i: nat): Word
    requires i < 16
  {
    match i
    case 0 => 0xfffa3942
    case 1 => 0x8771f681
    case 2 => 0x6d9d6122
    case 3 => 0xfde5380c
    case 4 => 0xa4beea44
    case 5 => 0x4bdecfa9
    case 6 => 0xf6bb4b60
    case 7 => 0xbebfbc70
    case 8 => 0x289b7ec6
    case 9 => 0xeaa127fa
    case 10 => 0xd4ef3085
    case 11 => 0x4881d05
    case 12 => 0xd9d4d039
    case 13 => 0xe6db99e5
    case 14 => 0x1fa27cf8
    case _ => 0xc4ac5665
  }

  function Sine4(i: nat): Word
    requires i < 16
  {
    match i
    case 0 => 0xf4292244
    case 1 => 0x432aff97
    case 2 => 0xab9423a7
    case 3 => 0xfc93a039
    case 4 => 0x655b59c3
    case 5 => 0x8f0ccc92
    case 6 => 0xffeff47d
    case 7 => 0x85845dd1
    case 8 => 0x6fa87e4f
    case 9 => 0xfe2ce6e0
    case 10 => 0xa3014314
    case 11 => 0x4e0811a1
    case 12 => 0xf7537e82
    case 13 => 0xbd3af235
    case 14 => 0x2ad7d2bb
    case _ => 0xeb86d391
  }

  /** The message word used by step i. */
  function WordIndex(i: nat): (k: nat)
    requires i < 64
    ensures k < 16
  {
    if i < 16 then i
    else if i < 32 then (1 + 5 * i) % 16
    else if i < 48 then (5 + 3 * i) % 16
    else 7 * i % 16
  }

  function Shift(i: nat): (s: nat)
    requires i < 64
    ensures 0 < s < 32
  {
    if i < 16 then [7, 12, 17, 22][i % 4]
    else if i < 32 then [5, 9, 14, 20][i % 4]
    else if i < 48 then [4, 11, 16, 23][i % 4]
    else [6, 10, 15, 21][i % 4]
  }

  function Mix(i: nat, q: Quad): Word {
    if i < 16 then F(q.b, q.c, q.d)
    else if i < 32 then G(q.b, q.c, q.d)
    else if i < 48 then H(q.b, q.c, q.d)
    else I(q.b, q.c, q.d)
  }

  /** a = b + ((a + f(b,c,d) + X[k] + T[i]) <<< s), then the roles rotate: (d, a, b, c). */
  function Step(i: nat, x: Block, q: Quad): Quad
    requires i < 64
  {
    var sum: Word := (q.a + Mix(i, q) + x[WordIndex(i)] + Sine(i)) % WORD;
    Quad(q.d, Add(q.b, RotateLeft(sum, Shift(i))), q.b, q.c)
  }

  function Steps(n: nat, x: Block, q: Quad): Quad
    requires n <= 64
  {
    if n == 0 then q else Step(n - 1, x, Steps(n - 1, x, q))
  }

  lemma Tables1(j: nat)
    requires j < 16
    ensures WordIndex(0 + j) == j && Shift(0 + j) == [7, 12, 17, 22][j % 4]
    ensures Sine(0 + j) == Sine1(j)
  {
    hide Sine1;
  }

  lemma Tables2(j: nat)
    requires j < 16
    ensures WordIndex(16 + j) == (1 + 5 * j) % 16 && Shift(16 + j) == [5, 9, 14, 20][j % 4]
    ensures Sine(16 + j) == Sine2(j)
  {
    hide Sine2;
    ModUnique(1 + 5 * (16 + j), 16, (1 + 5 * j) / 16 + 5, (1 + 5 * j) % 16);
    ModUnique(16 + j, 4, 4 + j / 4, j % 4);
  }

  lemma Tables3(j: nat)
    requires j < 16
    ensures WordIndex(32 + j) == (5 + 3 * j) % 16 && Shift(32 + j) == [4, 11, 16, 23][j % 4]
    ensures Sine(32 + j) == Sine3(j)
  {
    hide Sine3;
    ModUnique(5 + 3 * (32 + j), 16, (5 + 3 * j) / 16 + 6, (5 + 3 * j) % 16);
    ModUnique(32 + j, 4, 8 + j / 4, j % 4);
  }

  lemma Tables4(j: nat)
    requires j < 16
    ensures WordIndex(48 + j) == 7 * j % 16 && Shift(48 + j) == [6, 10, 15, 21][j % 4]
    ensures Sine(48 + j) == Sine4(j)
  {
    hide Sine4;
    ModUnique(7 * (48 + j), 16, (7 * j) / 16 + 21, (7 * j) % 16);
    ModUnique(48 + j, 4, 12 + j / 4, j % 4);
  }

  lemma FFStep(j: nat, x: Block, q: Quad, a: Word, b: Word, c: Word, d: Word, k: nat, s: nat, ac: Word)
    requires j < 16 && k == j && s == [7, 12, 17, 22][j % 4] && ac == Sine1(j)
    requires Quad(a, b, c, d) == Steps(0 + j, x, q)
    ensures Steps(0 + j + 1, x, q) == Quad(d, FF(a, b, c, d, x[k], s, ac), b, c)
  {
    hide RotateLeft, F, G, H, I, WordIndex, Shift, Sine, Sine1;
    Tables1(j);
    Sums(a, Mix(0 + j, Quad(a, b, c, d)), x[k], ac);
  }

  lemma GGStep(j: nat, x: Block, q: Quad, a: Word, b: Word, c: Word, d: Word, k: nat, s: nat, ac: Word)
    requires j < 16 && k == (1 + 5 * j) % 16 && s == [5, 9, 14, 20][j % 4] && ac == Sine2(j)
    requires Quad(a, b, c, d) == Steps(16 + j, x, q)
    ensures Steps(16 + j + 1, x, q) == Quad(d, GG(a, b, c, d, x[k], s, ac), b, c)
  {
    hide RotateLeft, F, G, H, I, WordIndex, Shift, Sine, Sine2;
    Tables2(j);
    Sums(a, Mix(16 + j, Quad(a, b, c, d)), x[k], ac);
  }

  lemma HHStep(j: nat, x: Block, q: Quad, a: Word, b: Word, c: Word, d: Word, k: nat, s: nat, ac: Word)
    requires j < 16 && k == (5 + 3 * j) % 16 && s == [4, 11, 16, 23][j % 4] && ac == Sine3(j)
    requires Quad(a, b, c, d) == Steps(32 + j, x, q)
    ensures Steps(32 + j + 1, x, q) == Quad(d, HH(a, b, c, d, x[k], s, ac), b, c)
  {
    hide RotateLeft, F, G, H, I, WordIndex, Shift, Sine, Sine3;
    Tables3(j);
    Sums(a, Mix(32 + j, Quad(a, b, c, d)), x[k], ac);
  }

  lemma IIStep(j: nat, x: Block, q: Quad, a: Word, b: Word, c: Word, d: Word, k: nat, s: nat, ac: Word)
    requires j < 16 && k == 7 * j % 16 && s == [6, 10, 15, 21][j % 4] && ac == Sine4(j)
    requires Quad(a, b, c, d) == Steps(48 + j, x, q)
    ensures Steps(48 + j + 1, x, q) == Quad(d, II(a, b, c, d, x[k], s, ac), b, c)
  {
    hide RotateLeft, F, G, H, I, WordIndex, Shift, Sine, Sine4;
    Tables4(j);
    Sums(a, Mix(48 + j, Quad(a, b, c, d)), x[k], ac);
  }

  lemma Sums(a: Word, f: Word, x: Word, ac: Word)
    ensures Add(a, Add(Add(f, x), ac)) == (a + f + x + ac) % WORD
  {
    var s1, s2 := f + x, (f + x) % WORD + ac;
    ModUnique(a + f + x + ac, WORD, s1 / WORD + s2 / WORD + (a + s2 % WORD) / WORD, (a + s2 % WORD) % WORD);
  }

  method Round1(x: Block, ghost q: Quad, a0: Word, b0: Word, c0: Word, d0: Word)
    returns (a: Word, b: Word, c: Word, d: Word)
    requires Quad(a0, b0, c0, d0) == Steps(0, x, q)
    ensures Quad(a, b, c, d) == Steps(16, x, q)
  {
    hide Steps, FF, GG, HH, II;
    a, b, c, d := a0, b0, c0, d0;
    FFStep(0, x, q, a, b, c, d, 0, S11, 0xd76aa478);
    a := FF(a, b, c, d, x[0], S11, 0xd76aa478);
    FFStep(1, x, q, d, a, b, c, 1, S12, 0xe8c7b756);
    d := FF(d, a, b, c, x[1], S12, 0xe8c7b756);
    FFStep(2, x, q, c, d, a, b, 2, S13, 0x242070db);
    c := FF(c, d, a, b, x[2], S13, 0x242070db);
    FFStep(3, x, q, b, c, d, a, 3, S14, 0xc1bdceee);
    b := FF(b, c, d, a, x[3], S14, 0xc1bdceee);
    FFStep(4, x, q, a, b, c, d, 4, S11, 0xf57c0faf);
    a := FF(a, b, c, d, x[4], S11, 0xf57c0faf);
    FFStep(5, x, q, d, a, b, c, 5, S12, 0x4787c62a);
    d := FF(d, a, b, c, x[5], S12, 0x4787c62a);
    FFStep(6, x, q, c, d, a, b, 6, S13, 0xa8304613);
    c := FF(c, d, a, b, x[6], S13, 0xa8304613);
    FFStep(7, x, q, b, c, d, a, 7, S14, 0xfd469501);
    b := FF(b, c, d, a, x[7], S14, 0xfd469501);
    FFStep(8, x, q, a, b, c, d, 8, S11, 0x698098d8);
    a := FF(a, b, c, d, x[8], S11, 0x698098d8);
    FFStep(9, x, q, d, a, b, c, 9, S12, 0x8b44f7af);
    d := FF(d, a, b, c, x[9], S12, 0x8b44f7af);
    FFStep(10, x, q, c, d, a, b, 10, S13, 0xffff5bb1);
    c := FF(c, d, a, b, x[10], S13, 0xffff5bb1);
    FFStep(11, x, q, b, c, d, a, 11, S14, 0x895cd7be);
    b := FF(b, c, d, a, x[11], S14, 0x895cd7be);
    FFStep(12, x, q, a, b, c, d, 12, S11, 0x6b901122);
    a := FF(a, b, c, d, x[12], S11, 0x6b901122);
    FFStep(13, x, q, d, a, b, c, 13, S12, 0xfd987193);
    d := FF(d, a, b, c, x[13], S12, 0xfd987193);
    FFStep(14, x, q, c, d, a, b, 14, S13, 0xa679438e);
    c := FF(c, d, a, b, x[14], S13, 0xa679438e);
    FFStep(15, x, q, b, c, d, a, 15, S14, 0x49b40821);
    b := FF(b, c, d, a, x[15], S14, 0x49b40821);
  }

  method Round2(x: Block, ghost q: Quad, a0: Word, b0: Word, c0: Word, d0: Word)
    returns (a: Word, b: Word, c: Word, d: Word)
    requires Quad(a0, b0, c0, d0) == Steps(16, x, q)
    ensures Quad(a, b, c, d) == Steps(32, x, q)
  {
    hide Steps, FF, GG, HH, II;
    a, b, c, d := a0, b0, c0, d0;
    GGStep(0, x, q, a, b, c, d, 1, S21, 0xf61e2562);
    a := GG(a, b, c, d, x[1], S21, 0xf61e2562);
    GGStep(1, x, q, d, a, b, c, 6, S22, 0xc040b340);
    d := GG(d, a, b, c, x[6], S22, 0xc040b340);
    GGStep(2, x, q, c, d, a, b, 11, S23, 0x265e5a51);
    c := GG(c, d, a, b, x[11], S23, 0x265e5a51);
    GGStep(3, x, q, b, c, d, a, 0, S24, 0xe9b6c7aa);
    b := GG(b, c, d, a, x[0], S24, 0xe9b6c7aa);
    GGStep(4, x, q, a, b, c, d, 5, S21, 0xd62f105d);
    a := GG(a, b, c, d, x[5], S21, 0xd62f105d);
    GGStep(5, x, q, d, a, b, c, 10, S22, 0x2441453);
    d := GG(d, a, b, c, x[10], S22, 0x2441453);
    GGStep(6, x, q, c, d, a, b, 15, S23, 0xd8a1e681);
    c := GG(c, d, a, b, x[15], S23, 0xd8a1e681);
    GGStep(7, x, q, b, c, d, a, 4, S24, 0xe7d3fbc8);
    b := GG(b, c, d, a, x[4], S24, 0xe7d3fbc8);
    GGStep(8, x, q, a, b, c, d, 9, S21, 0x21e1cde6);
    a := GG(a, b, c, d, x[9], S21, 0x21e1cde6);
    GGStep(9, x, q, d, a, b, c, 14, S22, 0xc33707d6);
    d := GG(d, a, b, c, x[14], S22, 0xc33707d6);
    GGStep(10, x, q, c, d, a, b, 3, S23, 0xf4d50d87);
    c := GG(c, d, a, b, x[3], S23, 0xf4d50d87);
    GGStep(11, x, q, b, c, d, a, 8, S24, 0x455a14ed);
    b := GG(b, c, d, a, x[8], S24, 0x455a14ed);
    GGStep(12, x, q, a, b, c, d, 13, S21, 0xa9e3e905);
    a := GG(a, b, c, d, x[13], S21, 0xa9e3e905);
    GGStep(13, x, q, d, a, b, c, 2, S22, 0xfcefa3f8);
    d := GG(d, a, b, c, x[2], S22, 0xfcefa3f8);
    GGStep(14, x, q, c, d, a, b, 7, S23, 0x676f02d9);
    c := GG(c, d, a, b, x[7], S23, 0x676f02d9);
    GGStep(15, x, q, b, c, d, a, 12, S24, 0x8d2a4c8a);
    b := GG(b, c, d, a, x[12], S24, 0x8d2a4c8a);
  }

  method Round3(x: Block, ghost q: Quad, a0: Word, b0: Word, c0: Word, d0: Word)
    returns (a: Word, b: Word, c: Word, d: Word)
    requires Quad(a0, b0, c0, d0) == Steps(32, x, q)
    ensures Quad(a, b, c, d) == Steps(48, x, q)
  {
    hide Steps, FF, GG, HH, II;
    a, b, c, d := a0, b0, c0, d0;
    HHStep(0, x, q, a, b, c, d, 5, S31, 0xfffa3942);
    a := HH(a, b, c, d, x[5], S31, 0xfffa3942);
    HHStep(1, x, q, d, a, b, c, 8, S32, 0x8771f681);
    d := HH(d, a, b, c, x[8], S32, 0x8771f681);
    HHStep(2, x, q, c, d, a, b, 11, S33, 0x6d9d6122);
    c := HH(c, d, a, b, x[11], S33, 0x6d9d6122);
    HHStep(3, x, q, b, c, d, a, 14, S34, 0xfde5380c);
    b := HH(b, c, d, a, x[14], S34, 0xfde5380c);
    HHStep(4, x, q, a, b, c, d, 1, S31, 0xa4beea44);
    a := HH(a, b, c, d, x[1], S31, 0xa4beea44);
    HHStep(5, x, q, d, a, b, c, 4, S32, 0x4bdecfa9);
    d := HH(d, a, b, c, x[4], S32, 0x4bdecfa9);
    HHStep(6, x, q, c, d, a, b, 7, S33, 0xf6bb4b60);
    c := HH(c, d, a, b, x[7], S33, 0xf6bb4b60);
    HHStep(7, x, q, b, c, d, a, 10, S34, 0xbebfbc70);
    b := HH(b, c, d, a, x[10], S34, 0xbebfbc70);
    HHStep(8, x, q, a, b, c, d, 13, S31, 0x289b7ec6);
    a := HH(a, b, c, d, x[13], S31, 0x289b7ec6);
    HHStep(9, x, q, d, a, b, c, 0, S32, 0xeaa127fa);
    d := HH(d, a, b, c, x[0], S32, 0xeaa127fa);
    HHStep(10, x, q, c, d, a, b, 3, S33, 0xd4ef3085);
    c := HH(c, d, a, b, x[3], S33, 0xd4ef3085);
    HHStep(11, x, q, b, c, d, a, 6, S34, 0x4881d05);
    b := HH(b, c, d, a, x[6], S34, 0x4881d05);
    HHStep(12, x, q, a, b, c, d, 9, S31, 0xd9d4d039);
    a := HH(a, b, c, d, x[9], S31, 0xd9d4d039);
    HHStep(13, x, q, d, a, b, c, 12, S32, 0xe6db99e5);
    d := HH(d, a, b, c, x[12], S32, 0xe6db99e5);
    HHStep(14, x, q, c, d, a, b, 15, S33, 0x1fa27cf8);
    c := HH(c, d, a, b, x[15], S33, 0x1fa27cf8);
    HHStep(15, x, q, b, c, d, a, 2, S34, 0xc4ac5665);
    b := HH(b, c, d, a, x[2], S34, 0xc4ac5665);
  }

  method Round4(x: Block, ghost q: Quad, a0: Word, b0: Word, c0: Word, d0: Word)
    returns (a: Word, b: Word, c: Word, d: Word)
    requires Quad(a0, b0, c0, d0) == Steps(48, x, q)
    ensures Quad(a, b, c, d) == Steps(64, x, q)
  {
    hide Steps, FF, GG, HH, II;
    a, b, c, d := a0, b0, c0, d0;
    IIStep(0, x, q, a, b, c, d, 0, S41, 0xf4292244);
    a := II(a, b, c, d, x[0], S41, 0xf4292244);
    IIStep(1, x, q, d, a, b, c, 7, S42, 0x432aff97);
    d := II(d, a, b, c, x[7], S42, 0x432aff97);
    IIStep(2, x, q, c, d, a, b, 14, S43, 0xab9423a7);
    c := II(c, d, a, b, x[14], S43, 0xab9423a7);
    IIStep(3, x, q, b, c, d, a, 5, S44, 0xfc93a039);
    b := II(b, c, d, a, x[5], S44, 0xfc93a039);
    IIStep(4, x, q, a, b, c, d, 12, S41, 0x655b59c3);
    a := II(a, b, c, d, x[12], S41, 0x655b59c3);
    IIStep(5, x, q, d, a, b, c, 3, S42, 0x8f0ccc92);
    d := II(d, a, b, c, x[3], S42, 0x8f0ccc92);
    IIStep(6, x, q, c, d, a, b, 10, S43, 0xffeff47d);
    c := II(c, d, a, b, x[10], S43, 0xffeff47d);
    IIStep(7, x, q, b, c, d, a, 1, S44, 0x85845dd1);
    b := II(b, c, d, a, x[1], S44, 0x85845dd1);
    IIStep(8, x, q, a, b, c, d, 8, S41, 0x6fa87e4f);
    a := II(a, b, c, d, x[8], S41, 0x6fa87e4f);
    IIStep(9, x, q, d, a, b, c, 15, S42, 0xfe2ce6e0);
    d := II(d, a, b, c, x[15], S42, 0xfe2ce6e0);
    IIStep(10, x, q, c, d, a, b, 6, S43, 0xa3014314);
    c := II(c, d, a, b, x[6], S43, 0xa3014314);
    IIStep(11, x, q, b, c, d, a, 13, S44, 0x4e0811a1);
    b := II(b, c, d, a, x[13], S44, 0x4e0811a1);
    IIStep(12, x, q, a, b, c, d, 4, S41, 0xf7537e82);
    a := II(a, b, c, d, x[4], S41, 0xf7537e82);
    IIStep(13, x, q, d, a, b, c, 11, S42, 0xbd3af235);
    d := II(d, a, b, c, x[11], S42, 0xbd3af235);
    IIStep(14, x, q, c, d, a, b, 2, S43, 0x2ad7d2bb);
    c := II(c, d, a, b, x[2], S43, 0x2ad7d2bb);
    IIStep(15, x, q, b, c, d, a, 9, S44, 0xeb86d391);
    b := II(b, c, d, a, x[9], S44, 0xeb86d391);
  }

  lemma Steps0(x: Block, q: Quad)
    ensures Steps(0, x, q) == q
  {
  }
}
