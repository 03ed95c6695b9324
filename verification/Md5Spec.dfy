/** The MD5 digest as RFC 1321 (sections 3.1 to 3.5) defines it, on whole messages. */
module Md5Spec {
  import opened Words
  import opened Md5Rounds
  import Md5Codec

  const IV := Quad(0x67452301, 0xefcdab89, 0x98badcfe, 0x10325476)

  function AddQuads(p: Quad, q: Quad): Quad {
    Quad(Add(p.a, q.a), Add(p.b, q.b), Add(p.c, q.c), Add(p.d, q.d))
  }

  /** One 64-byte block: the 64 steps, then the additions of step 4 of the RFC. */
  function Compress(q: Quad, block: seq<Byte>): Quad
    requires |block| == 64
  {
    AddQuads(q, Steps(64, Md5Codec.Unpacked(block), q))
  }

  /** The state after the whole 64-byte blocks of the message, from the first to the last. */
  function Absorb(q: Quad, message: seq<Byte>): Quad
    requires |message| % 64 == 0
  {
    if |message| == 0 then q
    else Compress(Absorb(q, message[..|message| - 64]), message[|message| - 64..])
  }

  lemma AbsorbNext(q: Quad, message: seq<Byte>, block: seq<Byte>)
    requires |message| % 64 == 0 && |block| == 64
    ensures Absorb(q, message + block) == Compress(Absorb(q, message), block)
  {
    var all := message + block;
    assert all[..|all| - 64] == message && all[|all| - 64..] == block;
  }

  /** Absorbing is a fold: a state is all that the blocks before it leave behind. */
  lemma {:induction false} AbsorbAppend(q: Quad, m1: seq<Byte>, m2: seq<Byte>)
    requires |m1| % 64 == 0 && |m2| % 64 == 0
    ensures Absorb(q, m1 + m2) == Absorb(Absorb(q, m1), m2)
    decreases |m2|
  {
    hide Absorb, Compress;
    if |m2| == 0 {
      assert m1 + m2 == m1;
      AbsorbNothing(Absorb(q, m1), m2);
    } else {
      var k := |m2| - 64;
      var front, block := m2[..k], m2[k..];
      AbsorbAppend(q, m1, front);
      Regroup(m1, front, block);
      AbsorbNext(q, m1 + front, block);
      AbsorbNext(Absorb(q, m1), front, block);
      assert front + block == m2;
    }
  }

  lemma AbsorbNothing(q: Quad, m: seq<Byte>)
    requires m == []
    ensures Absorb(q, m) == q
  {
  }

  lemma Regroup(x: seq<Byte>, y: seq<Byte>, z: seq<Byte>)
    ensures x + (y + z) == x + y + z
  {
  }

  /** The low-order eight bytes of n, lowest first. */
  function LittleEndian64(n: nat): (bytes: seq<Byte>)
    ensures |bytes| == 8
  {
    seq(8, k requires 0 <= k < 8 => n / Pow2(8 * k) % 0x100)
  }

  function Zeros(n: nat): (z: seq<Byte>)
    ensures |z| == n
  {
    seq(n, _ => 0)
  }

  /** How many zero bytes follow the 0x80: the least number that reaches 56 modulo 64. */
  function ZeroCount(n: nat): nat {
    (55 - n) % 64
  }

  lemma ZeroCountLeast(n: nat, k: nat)
    ensures (n + 1 + ZeroCount(n)) % 64 == 56
    ensures (n + 1 + k) % 64 == 56 ==> ZeroCount(n) <= k
  {
  }

  function Padded(message: seq<Byte>): (padded: seq<Byte>)
    ensures |padded| % 64 == 0
  {
    message + [0x80] + Zeros(ZeroCount(|message|)) + LittleEndian64(8 * |message|)
  }

  function StateBytes(q: Quad): (bytes: seq<Byte>)
    ensures |bytes| == 16
  {
    Md5Codec.Bytes([q.a, q.b, q.c, q.d])
  }

  function Digest(message: seq<Byte>): (digest: seq<Byte>)
    ensures |digest| == 16
  {
    StateBytes(Absorb(IV, Padded(message)))
  }

  /** Different states print as different digests. */
  lemma StateBytesInjective(p: Quad, q: Quad)
    requires StateBytes(p) == StateBytes(q)
    ensures p == q
  {
    hide Md5Codec.Bytes, Md5Codec.Unpacked;
    Md5Codec.UnpackBytes([p.a, p.b, p.c, p.d]);
    Md5Codec.UnpackBytes([q.a, q.b, q.c, q.d]);
    assert [p.a, p.b, p.c, p.d] == [q.a, q.b, q.c, q.d];
  }

  /** The 64-bit bit counter, kept as two words, packs into the eight length bytes. */
  lemma CounterBytes(n: nat)
    ensures Md5Codec.Bytes([n % WORD, n / WORD % WORD]) == LittleEndian64(n)
  {
    var lo: Word, hi: Word := n % WORD, n / WORD % WORD;
    var words := [lo, hi];
    forall k | 0 <= k < 8
      ensures Md5Codec.Bytes(words)[k] == LittleEndian64(n)[k]
    {
      CounterByte(n, k);
    }
  }

  lemma CounterByte(n: nat, k: nat)
    requires k < 8
    ensures Md5Codec.ByteOf(if k < 4 then n % WORD else n / WORD % WORD, k % 4) == n / Pow2(8 * k) % 0x100
  {
    if k < 4 {
      WordByte(n, k);
    } else {
      HighByte(n, k, k - 4);
    }
  }

  lemma HighByte(n: nat, k: nat, j: nat)
    requires k == j + 4 && j < 4
    ensures Md5Codec.ByteOf(n / WORD % WORD, j) == n / Pow2(8 * k) % 0x100
  {
    var p := Pow2(8 * j);
    assert Pow2(8 * k) == WORD * p by {
      Pow2Adds(32, 8 * j);
      assert 32 + 8 * j == 8 * k;
      Pow2Values();
    }
    hide Pow2, Md5Codec.ByteOf;
    WordByte(n / WORD, j);
    DivDiv(n, WORD, p);
    assert n / Pow2(8 * k) == n / WORD / p;
  }

  lemma WordByte(n: nat, k: nat)
    requires k < 4
    ensures Md5Codec.ByteOf(n % WORD, k) == n / Pow2(8 * k) % 0x100
  {
    Pow2Values();
    hide Pow2;
    match k
    case 0 => assert Pow2(0) == 1 by { Pow2Zero(); } DigitOfLow(n, 1, 0x100_0000);
    case 1 => DigitOfLow(n, 0x100, 0x1_0000);
    case 2 => DigitOfLow(n, 0x1_0000, 0x100);
    case _ => DigitOfLow(n, 0x100_0000, 1);
  }

  lemma Pow2Zero()
    ensures Pow2(0) == 1
  {
  }

  lemma DivDiv(n: nat, p: nat, q: nat)
    requires p > 0 && q > 0
    ensures p * q > 0 && n / (p * q) == n / p / q
  {
    var m := n / p;
    DivMod(n, p);
    DivMod(m, q);
    TwoLevels(n, p, q, m / q, m % q, n % p);
  }

  lemma TwoLevels(n: nat, p: nat, q: nat, h: nat, u: nat, v: nat)
    requires v < p && u < q && n == (h * q + u) * p + v
    ensures p * q > 0 && n / (p * q) == h
  {
    var low, pq, rest := u * p + v, p * q, u * p;
    MulAtLeast(p, q);
    Expand(h, q, u, p);
    MulMonotone(u + 1, q, p);
    ModUnique(n, pq, h, low);
  }

  /** A digit below the modulus is not affected by the reduction. */
  lemma DigitOfLow(n: nat, p: nat, c: nat)
    requires p > 0 && c > 0 && p * (0x100 * c) == WORD
    ensures n % WORD / p % 0x100 == n / p % 0x100
  {
    var m := n / p;
    DivDiv(n, p, 0x100 * c);
    var h := n / WORD;
    assert n % WORD == n - h * (p * (0x100 * c));
    var low := m - h * (0x100 * c);
    assert n % WORD == low * p + n % p by {
      assert n == m * p + n % p;
      assert low * p == m * p - h * (0x100 * c) * p;
    }
    assert low >= 0;
    ModUnique(n % WORD, p, low, n % p);
    ModUnique(low, 0x100, m / 0x100 - h * c, m % 0x100);
  }
}
