/** Little-endian packing of words into bytes and back. */
module Md5Codec {
  import opened Words

  function Pack(b0: Byte, b1: Byte, b2: Byte, b3: Byte): Word {
    b0 + 0x100 * b1 + 0x1_0000 * b2 + 0x100_0000 * b3
  }

  /** The bytes of the words, each word with its low-order byte first. */
  function Bytes(words: seq<Word>): (bytes: seq<Byte>)
    ensures |bytes| == 4 * |words|
  {
    seq(4 * |words|, j requires 0 <= j < 4 * |words| => ByteOf(words[j / 4], j % 4))
  }

  /** Byte k of a word, counting from the low-order end. */
  function ByteOf(w: Word, k: nat): Byte {
    if k == 0 then w % 0x100
    else if k == 1 then w / 0x100 % 0x100
    else if k == 2 then w / 0x1_0000 % 0x100
    else w / 0x100_0000 % 0x100
  }

  function Unpacked(bytes: seq<Byte>): (words: seq<Word>)
    requires |bytes| % 4 == 0
    ensures |words| == |bytes| / 4
  {
    seq(|bytes| / 4, i requires 0 <= i < |bytes| / 4 =>
      Pack(bytes[4 * i], bytes[4 * i + 1], bytes[4 * i + 2], bytes[4 * i + 3]))
  }

  lemma UnpackBytes(words: seq<Word>)
    ensures Unpacked(Bytes(words)) == words
  {
    forall i | 0 <= i < |words|
      ensures Unpacked(Bytes(words))[i] == words[i]
    {
      UnpackAt(words, i);
    }
  }

  lemma UnpackAt(words: seq<Word>, i: nat)
    requires i < |words|
    ensures Unpacked(Bytes(words))[i] == words[i]
  {
    hide Pack, ByteOf;
    PackSplit(words[i]);
    ByteAt(words, i, 0);
    ByteAt(words, i, 1);
    ByteAt(words, i, 2);
    ByteAt(words, i, 3);
  }

  lemma ByteAt(words: seq<Word>, i: nat, k: nat)
    requires i < |words| && k < 4
    ensures Bytes(words)[4 * i + k] == ByteOf(words[i], k)
  {
    hide ByteOf;
    assert (4 * i + k) / 4 == i && (4 * i + k) % 4 == k;
  }

  lemma BytesUnpack(bytes: seq<Byte>)
    requires |bytes| % 4 == 0
    ensures Bytes(Unpacked(bytes)) == bytes
  {
    forall j | 0 <= j < |bytes|
      ensures Bytes(Unpacked(bytes))[j] == bytes[j]
    {
      var i := j / 4;
      SplitPack(bytes[4 * i], bytes[4 * i + 1], bytes[4 * i + 2], bytes[4 * i + 3]);
    }
  }

  lemma PackSplit(w: Word)
    ensures Pack(ByteOf(w, 0), ByteOf(w, 1), ByteOf(w, 2), ByteOf(w, 3)) == w
  {
    hide ByteOf;
    var q1 := w / 0x100;
    var q2 := q1 / 0x100;
    var q3 := q2 / 0x100;
    assert q3 < 0x100;
    Digits(w, q1, q2, q3, w % 0x100, q1 % 0x100, q2 % 0x100);
  }

  /** The bytes of a word are its digits to the base 256. */
  lemma Digits(w: Word, q1: nat, q2: nat, q3: Byte, d0: Byte, d1: Byte, d2: Byte)
    requires w == 0x100 * q1 + d0 && q1 == 0x100 * q2 + d1 && q2 == 0x100 * q3 + d2
    ensures ByteOf(w, 0) == d0 && ByteOf(w, 1) == d1 && ByteOf(w, 2) == d2 && ByteOf(w, 3) == q3
  {
    ModUnique(w, 0x100, q1, d0);
    ModUnique(w, 0x1_0000, q2, 0x100 * d1 + d0);
    ModUnique(w, 0x100_0000, q3, 0x1_0000 * d2 + 0x100 * d1 + d0);
    ModUnique(q1, 0x100, q2, d1);
    ModUnique(q2, 0x100, q3, d2);
  }

  lemma SplitPack(b0: Byte, b1: Byte, b2: Byte, b3: Byte)
    ensures var w := Pack(b0, b1, b2, b3);
            && ByteOf(w, 0) == b0 && ByteOf(w, 1) == b1 && ByteOf(w, 2) == b2 && ByteOf(w, 3) == b3
  {
    hide ByteOf;
    var q2 := 0x100 * b3 + b2;
    Digits(Pack(b0, b1, b2, b3), 0x100 * q2 + b1, q2, b3, b0, b1, b2);
  }

  /** `x & 0xff` */
  lemma LowByte(x: Word)
    ensures And(x, 0xff) == x % 0x100
  {
    Pow2Values();
    AndMask(x, 8);
  }

  /** Bytes shifted to their places share no digit, so `|` packs them. */
  lemma OrPacks(b0: Byte, b1: Byte, b2: Byte, b3: Byte)
    ensures Or(Or(Or(b0, b1 * 0x100), b2 * 0x1_0000), b3 * 0x100_0000) == Pack(b0, b1, b2, b3)
  {
    hide BitOr, Pow2;
    Pow2Values();
    OrAbove(b0, b1, 8);
    OrAbove(b0 + 0x100 * b1, b2, 16);
    OrAbove(b0 + 0x100 * b1 + 0x1_0000 * b2, b3, 24);
  }

  lemma OrAbove(low: nat, high: nat, n: nat)
    requires low < Pow2(n)
    ensures BitOr(low, high * Pow2(n)) == low + high * Pow2(n)
  {
    OrDisjoint(high, low, n);
    OrCommutes(low, high * Pow2(n));
  }

  /** One more word gives four more bytes. */
  lemma BytesNext(words: seq<Word>, i: nat)
    requires i < |words|
    ensures Bytes(words[..i + 1]) == Bytes(words[..i])
         + [ByteOf(words[i], 0), ByteOf(words[i], 1), ByteOf(words[i], 2), ByteOf(words[i], 3)]
  {
    hide ByteOf;
    var longer, shorter := words[..i + 1], words[..i];
    ByteAt(longer, i, 0);
    ByteAt(longer, i, 1);
    ByteAt(longer, i, 2);
    ByteAt(longer, i, 3);
    forall j | 0 <= j < 4 * i
      ensures Bytes(longer)[j] == Bytes(shorter)[j]
    {
    }
  }

  /** The four masked shifts are the word's bytes. */
  lemma MaskedBytes(w: Word)
    ensures And(w, 0xff) == ByteOf(w, 0) && And(w / 0x100, 0xff) == ByteOf(w, 1)
    ensures And(w / 0x1_0000, 0xff) == ByteOf(w, 2) && And(w / 0x100_0000, 0xff) == ByteOf(w, 3)
  {
    LowByte(w);
    LowByte(w / 0x100);
    LowByte(w / 0x1_0000);
    LowByte(w / 0x100_0000);
  }

  method Encode(output: array<Byte>, input: array<Word>, len: nat)
    requires len % 4 == 0 && len <= output.Length && len <= 4 * input.Length && len + 4 <= WORD
    requires input as object != output
    modifies output
    ensures output[..len] == Bytes(input[..len / 4])
    ensures output[len..] == old(output[len..])
  {
    ghost var words := input[..len / 4];
    assert Bytes(words[..0]) == [];
    hide ByteOf, Bytes;
    var i, j := 0, 0;
    while j < len
      invariant j == 4 * i <= len
      invariant words == input[..len / 4]
      invariant output[..j] == Bytes(words[..i])
      invariant output[len..] == old(output[len..])
    {
      BytesNext(words, i);
      PutWord(output, j, input[i]);
      i, j := i + 1, j + 4;
    }
    assert words[..i] == words;
  }

  /** The body of Encode's loop. */
  method PutWord(output: array<Byte>, j: nat, w: Word)
    requires j + 4 <= output.Length
    modifies output
    ensures output[..j + 4] == old(output[..j]) + [ByteOf(w, 0), ByteOf(w, 1), ByteOf(w, 2), ByteOf(w, 3)]
    ensures output[j + 4..] == old(output[j + 4..])
  {
    hide And, ByteOf;
    MaskedBytes(w);
    output[j] := And(w, 0xff);
    output[j + 1] := And(w / 0x100, 0xff);
    output[j + 2] := And(w / 0x1_0000, 0xff);
    output[j + 3] := And(w / 0x100_0000, 0xff);
  }

  /** Four more bytes unpack to one more word. */
  lemma UnpackedNext(bytes: seq<Byte>, i: nat, j: nat)
    requires j == 4 * i && j + 4 <= |bytes|
    ensures Unpacked(bytes[..j + 4])
         == Unpacked(bytes[..j]) + [Pack(bytes[j], bytes[j + 1], bytes[j + 2], bytes[j + 3])]
  {
    hide Pack;
    var longer, shorter := bytes[..j + 4], bytes[..j];
    assert |Unpacked(longer)| == i + 1 && |Unpacked(shorter)| == i;
    forall k | 0 <= k < i
      ensures Unpacked(longer)[k] == Unpacked(shorter)[k]
    {
    }
  }

  /** `input` and `at` stand for the pointer `input + at`. */
  method Decode(output: array<Word>, input: array<Byte>, at: nat, len: nat)
    requires len % 4 == 0 && at + len <= input.Length && len <= 4 * output.Length && len + 4 <= WORD
    requires input as object != output
    modifies output
    ensures output[..len / 4] == Unpacked(input[at..at + len])
    ensures output[len / 4..] == old(output[len / 4..])
  {
    ghost var bytes := input[at..at + len];
    assert Unpacked(bytes[..0]) == [];
    hide BitOr, BitAnd, Pow2, Pack, Or, Unpacked;
    var i, j := 0, 0;
    while j < len
      invariant j == 4 * i <= len
      invariant bytes == input[at..at + len]
      invariant output[..i] == Unpacked(bytes[..j])
      invariant output[len / 4..] == old(output[len / 4..])
    {
      var b0: Word, b1: Word, b2: Word, b3: Word :=
        input[at + j], input[at + j + 1], input[at + j + 2], input[at + j + 3];
      OrPacks(b0, b1, b2, b3);
      UnpackedNext(bytes, i, j);
      output[i] := Or(Or(Or(b0, b1 * 0x100), b2 * 0x1_0000), b3 * 0x100_0000);
      i, j := i + 1, j + 4;
    }
    assert bytes[..j] == bytes;
  }
}
