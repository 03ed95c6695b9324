/** The streaming MD5 context: feeding a message in pieces, padding, and printing the digest. */
module Md5 {
  import opened Words
  import opened Md5Rounds
  import opened Md5Spec
  import Md5Codec

  /** The bytes of `message` that no whole block covers yet. */
  function Rest(message: seq<Byte>): (rest: seq<Byte>)
    ensures |rest| == |message| % 64
  {
    message[|message| - |message| % 64..]
  }

  function Whole(message: seq<Byte>): (blocks: seq<Byte>)
    ensures |blocks| % 64 == 0
  {
    message[..|message| - |message| % 64]
  }

  /** Where the block loop of Update stops when `len` bytes arrive after `n` others. */
  function LoopEnd(n: nat, len: nat): int {
    len - (n + len) % 64
  }

  /** The block loop tests `i + 63 < len` on 32-bit numbers; the sum must not wrap at its last test. */
  predicate NoWrap(n: nat, len: nat) {
    len >= 64 - n % 64 ==> LoopEnd(n, len) + 63 < WORD
  }

  /** Where that test wraps, the loop runs on, past the end of its input. */
  lemma NoWrapExact(n: nat, len: nat)
    requires 64 - n % 64 <= len < WORD
    ensures NoWrap(n, len) <==> (LoopEnd(n, len) + 63) % WORD >= len
    ensures len <= WORD - 64 ==> NoWrap(n, len)
  {
    var e := LoopEnd(n, len);
    if e + 63 >= WORD {
      ModUnique(e + 63, WORD, 1, e + 63 - WORD);
    }
  }

  /** An input on which it wraps: the longest one, after a single byte. Fed first, no input makes it wrap. */
  lemma WrapsAfterOne(len: Word)
    ensures !NoWrap(1, 0xffff_ffff) && NoWrap(0, len)
  {
  }

  const HEX := "0123456789abcdef"

  /** Two lower-case hexadecimal digits a byte, as `%02x` prints them. */
  function Hex(bytes: seq<Byte>): (text: string)
    ensures |text| == 2 * |bytes|
  {
    if bytes == [] then "" else Hex(bytes[..|bytes| - 1]) + HexByte(bytes[|bytes| - 1])
  }

  function HexByte(b: Byte): (text: string)
    ensures |text| == 2
  {
    [HEX[b / 16], HEX[b % 16]]
  }

  /** A digit of hexadecimal text, in lower case. */
  predicate IsHexDigit(c: char) {
    '0' <= c <= '9' || 'a' <= c <= 'f'
  }

  function DigitValue(c: char): int {
    if c <= '9' then c as int - '0' as int else c as int - 'a' as int + 10
  }

  /** The text shows each byte by two hexadecimal digits, the high one first. */
  ghost predicate Shows(text: seq<char>, bytes: seq<Byte>) {
    && |text| == 2 * |bytes|
    && (forall k :: 0 <= k < |text| ==> IsHexDigit(text[k]))
    && forall k :: 0 <= k < |bytes| ==> bytes[k] == 16 * DigitValue(text[2 * k]) + DigitValue(text[2 * k + 1])
  }

  lemma HexByteShows(b: Byte)
    ensures var t := HexByte(b);
            IsHexDigit(t[0]) && IsHexDigit(t[1]) && b == 16 * DigitValue(t[0]) + DigitValue(t[1])
  {
    HexDigitShows(b / 16);
    HexDigitShows(b % 16);
    hide IsHexDigit, DigitValue;
  }

  lemma HexDigitShows(n: nat)
    requires n < 16
    ensures IsHexDigit(HEX[n]) && DigitValue(HEX[n]) == n
  {
  }

  lemma {:induction false} HexShows(bytes: seq<Byte>)
    ensures Shows(Hex(bytes), bytes)
  {
    if bytes != [] {
      var front, b := bytes[..|bytes| - 1], bytes[|bytes| - 1];
      assert Hex(bytes) == Hex(front) + HexByte(b);
      assert bytes == front + [b];
      hide *;
      HexShows(front);
      HexByteShows(b);
      ShowsNext(Hex(front), HexByte(b), front, b);
    }
  }

  lemma ShowsNext(text: seq<char>, t: seq<char>, bytes: seq<Byte>, b: Byte)
    requires Shows(text, bytes) && |t| == 2 && IsHexDigit(t[0]) && IsHexDigit(t[1])
    requires b == 16 * DigitValue(t[0]) + DigitValue(t[1])
    ensures Shows(text + t, bytes + [b])
  {
    hide IsHexDigit, DigitValue;
    var longer, more, n := text + t, bytes + [b], |bytes|;
    forall k | 0 <= k < |longer|
      ensures IsHexDigit(longer[k])
    {
      assert k < 2 * n || k == 2 * n || k == 2 * n + 1;
    }
    forall k | 0 <= k < |more|
      ensures more[k] == 16 * DigitValue(longer[2 * k]) + DigitValue(longer[2 * k + 1])
    {
      if k < n {
        assert longer[2 * k] == text[2 * k] && longer[2 * k + 1] == text[2 * k + 1];
      }
    }
  }

  /** Only one text shows given bytes. */
  lemma ShowsDetermines(t1: seq<char>, t2: seq<char>, bytes: seq<Byte>)
    requires Shows(t1, bytes) && Shows(t2, bytes)
    ensures t1 == t2
  {
    hide IsHexDigit, DigitValue;
    forall i | 0 <= i < |t1|
      ensures t1[i] == t2[i]
    {
      var k := i / 2;
      assert i == 2 * k || i == 2 * k + 1;
      SameTwoDigits(t1[2 * k], t1[2 * k + 1], t2[2 * k], t2[2 * k + 1]);
    }
  }

  lemma SameTwoDigits(c: char, d: char, e: char, f: char)
    requires IsHexDigit(c) && IsHexDigit(d) && IsHexDigit(e) && IsHexDigit(f)
    requires 16 * DigitValue(c) + DigitValue(d) == 16 * DigitValue(e) + DigitValue(f)
    ensures c == e && d == f
  {
  }

  /** Digests that print alike are equal. */
  lemma {:induction false} HexInjective(a: seq<Byte>, b: seq<Byte>)
    requires Hex(a) == Hex(b)
    ensures a == b
    decreases |a|
  {
    assert |a| == |b|;
    if a != [] {
      var x, y := a[..|a| - 1], b[..|b| - 1];
      var i, j := a[|a| - 1], b[|b| - 1];
      hide HexByte;
      assert Hex(a) == Hex(x) + HexByte(i) && Hex(b) == Hex(y) + HexByte(j);
      SplitEqual(Hex(x), HexByte(i), Hex(y), HexByte(j));
      HexInjective(x, y);
      HexByteInjective(i, j);
      assert a == x + [i] && b == y + [j];
    }
  }

  lemma SplitEqual<T>(x: seq<T>, i: seq<T>, y: seq<T>, j: seq<T>)
    requires x + i == y + j && |x| == |y|
    ensures x == y && i == j
  {
    assert x == (x + i)[..|x|] && y == (y + j)[..|y|];
    assert i == (x + i)[|x|..] && j == (y + j)[|y|..];
  }

  lemma HexByteInjective(i: Byte, j: Byte)
    requires HexByte(i) == HexByte(j)
    ensures i == j
  {
    assert HexByte(i)[0] == HexByte(j)[0] && HexByte(i)[1] == HexByte(j)[1];
    HexDigitInjective(i / 16, j / 16);
    HexDigitInjective(i % 16, j % 16);
  }

  lemma HexDigitInjective(i: nat, j: nat)
    requires i < 16 && j < 16 && HEX[i] == HEX[j]
    ensures i == j
  {
  }

  function Flatten(chunks: seq<seq<Byte>>): seq<Byte> {
    if chunks == [] then [] else Flatten(chunks[..|chunks| - 1]) + chunks[|chunks| - 1]
  }

  lemma FlattenNext(chunks: seq<seq<Byte>>, k: nat)
    requires k < |chunks|
    ensures Flatten(chunks[..k + 1]) == Flatten(chunks[..k]) + chunks[k]
  {
    assert chunks[..k + 1][..k] == chunks[..k];
  }

  method Copy(to: array<Byte>, at: nat, from: array<Byte>, start: nat, n: nat)
    requires at + n <= to.Length && start + n <= from.Length
    requires to != from
    modifies to
    ensures to[..at + n] == old(to[..at]) + from[start..start + n]
    ensures to[at + n..] == old(to[at + n..])
  {
    forall k | 0 <= k < n {
      to[at + k] := from[start + k];
    }
  }

  method MD5Transform(state: array<Word>, block: array<Byte>, at: nat)
    requires state.Length == 4 && at + 64 <= block.Length && state as object != block
    modifies state
    ensures QuadOf(state) == Compress(old(QuadOf(state)), block[at..at + 64])
  {
    hide Steps, Md5Codec.Unpacked;
    ghost var q := QuadOf(state);
    var a, b, c, d := state[0], state[1], state[2], state[3];
    var words := new Word[16];
    Md5Codec.Decode(words, block, at, 64);
    var x: Block := words[..16];
    assert x == Md5Codec.Unpacked(block[at..at + 64]);
    Steps0(x, q);
    a, b, c, d := Round1(x, q, a, b, c, d);
    a, b, c, d := Round2(x, q, a, b, c, d);
    a, b, c, d := Round3(x, q, a, b, c, d);
    a, b, c, d := Round4(x, q, a, b, c, d);
    state[0] := Add(state[0], a);
    state[1] := Add(state[1], b);
    state[2] := Add(state[2], c);
    state[3] := Add(state[3], d);
    assert QuadOf(state) == AddQuads(q, Steps(64, x, q));
    forall k | 0 <= k < 16 {
      words[k] := 0;
    }
    assert block[at..at + 64] == old(block[at..at + 64]);
    assert QuadOf(state) == AddQuads(q, Steps(64, x, q));
  }

  ghost function QuadOf(state: array<Word>): Quad
    requires state.Length == 4
    reads state
  {
    Quad(state[0], state[1], state[2], state[3])
  }

  // ---- The two-word bit counter ------------------------------------------

  /** A 64-bit number as its low and high words. */
  lemma TwoWords(n: nat)
    ensures n % WORD + WORD * (n / WORD % WORD) == n % (WORD * WORD)
  {
    var h := n / WORD;
    ModUnique(n, WORD * WORD, h / WORD, n % WORD + WORD * (h % WORD));
  }

  lemma TwoWordsUnique(lo: Word, hi: Word, n: nat)
    requires lo + WORD * hi == n % (WORD * WORD)
    ensures lo == n % WORD && hi == n / WORD % WORD
  {
    TwoWords(n);
  }

  lemma CarryAdds(c0: Word, c1: Word, len: Word, d0: Word, d1: Word)
    requires d0 == Add(c0, len * 8 % WORD)
    requires d1 == Add(if d0 < len * 8 % WORD then Add(c1, 1) else c1, len / 0x2000_0000)
    ensures d0 + WORD * d1 == (c0 + WORD * c1 + 8 * len) % (WORD * WORD)
  {
    var s, h := len * 8 % WORD, len / 0x2000_0000;
    assert len * 8 == h * WORD + s by {
      ModUnique(len * 8, WORD, h, len % 0x2000_0000 * 8);
    }
    var carry := if d0 < s then 1 else 0;
    assert c0 + s == carry * WORD + d0 by {
      ModUnique(c0 + s, WORD, if c0 + s < WORD then 0 else 1, if c0 + s < WORD then c0 + s else c0 + s - WORD);
    }
    assert exists q: nat :: c1 + carry + h == q * WORD + d1 by {
      HighWord(c1, carry, h, d1);
    }
    var q: nat :| c1 + carry + h == q * WORD + d1;
    ModUnique(c0 + WORD * c1 + 8 * len, WORD * WORD, q, d0 + WORD * d1);
  }

  lemma HighWord(c1: Word, carry: nat, h: Word, d1: Word)
    requires carry <= 1 && d1 == Add(if carry == 1 then Add(c1, 1) else c1, h)
    ensures exists q: nat :: c1 + carry + h == q * WORD + d1
  {
    var q := (c1 + carry) / WORD + (Add(c1, carry) + h) / WORD;
    assert c1 + carry + h == q * WORD + d1;
  }

  lemma BitCounter(n: nat, len: Word, c0: Word, c1: Word, d0: Word, d1: Word)
    requires c0 == 8 * n % WORD && c1 == 8 * n / WORD % WORD
    requires d0 + WORD * d1 == (c0 + WORD * c1 + 8 * len) % (WORD * WORD)
    ensures d0 == 8 * (n + len) % WORD && d1 == 8 * (n + len) / WORD % WORD
  {
    var m := WORD * WORD;
    TwoWords(8 * n);
    var r := 8 * n % m + 8 * len;
    ModUnique(8 * n + 8 * len, m, 8 * n / m + r / m, r % m);
    TwoWordsUnique(d0, d1, 8 * (n + len));
  }

  /** The low word of the bit count still knows the length modulo 64. */
  lemma IndexIsLength(n: nat)
    ensures 8 * n % WORD / 8 % 64 == n % 64
  {
    var q, r := n / 0x2000_0000, n % 0x2000_0000;
    ModUnique(8 * n, WORD, q, 8 * r);
    ModUnique(n, 64, 0x80_0000 * q + r / 64, r % 64);
  }

  // ---- The block loop ----------------------------------------------------

  /** The state when the first n of the bytes fed have been absorbed. */
  function StateAfter(fed: seq<Byte>, n: nat): Quad {
    if n <= |fed| && n % 64 == 0 then Absorb(IV, fed[..n]) else IV
  }

  lemma Aligned(n: nat)
    ensures (n + (64 - n % 64)) % 64 == 0
  {
    ModUnique(n + (64 - n % 64), 64, n / 64 + 1, 0);
  }

  lemma FirstBlock(before: seq<Byte>, input: seq<Byte>, len: nat, part: nat, buffer: seq<Byte>)
    requires part == 64 - |before| % 64 && part <= len <= |input|
    requires buffer == Rest(before) + input[..part]
    ensures Compress(Absorb(IV, Whole(before)), buffer) == StateAfter(before + input[..len], |before| + part)
  {
    Aligned(|before|);
    WholePrefix(before, input[..len], input[..part]);
    hide Compress, Absorb, Rest, Whole;
    AbsorbNext(IV, Whole(before), buffer);
  }

  lemma WholePrefix(before: seq<Byte>, more: seq<Byte>, part: seq<Byte>)
    requires part <= more
    ensures (before + more)[..|before| + |part|] == Whole(before) + (Rest(before) + part)
  {
    assert before == Whole(before) + Rest(before);
  }

  lemma NextBlock(before: seq<Byte>, input: seq<Byte>, len: nat, i: nat, blocks: nat)
    requires i + 64 <= len <= |input| && |before| + i == 64 * blocks
    ensures Compress(StateAfter(before + input[..len], |before| + i), input[i..i + 64])
         == StateAfter(before + input[..len], |before| + (i + 64))
  {
    hide Compress, Absorb;
    var fed := before + input[..len];
    AbsorbNext(IV, fed[..|before| + i], input[i..i + 64]);
    assert fed[..|before| + (i + 64)] == fed[..|before| + i] + input[i..i + 64];
  }

  /** The bytes left over, copied to the front of the buffer (or behind those already there). */
  lemma LeftOver(before: seq<Byte>, input: seq<Byte>, len: nat, i: nat, blocks: nat)
    requires i <= len <= |input| && len - i < 64 && |before| + i == 64 * blocks
    ensures |before + input[..len]| % 64 == len - i
    ensures Rest(before + input[..len]) == input[i..len]
    ensures StateAfter(before + input[..len], |before| + i) == Absorb(IV, Whole(before + input[..len]))
  {
    hide Absorb;
    ModUnique(|before| + len, 64, blocks, len - i);
  }

  lemma StillShort(before: seq<Byte>, input: seq<Byte>, len: nat)
    requires len <= |input| && |before| % 64 + len < 64
    ensures |before + input[..len]| % 64 == |before| % 64 + len
    ensures Rest(before + input[..len]) == Rest(before) + input[..len]
    ensures Whole(before + input[..len]) == Whole(before)
  {
    ModUnique(|before| + len, 64, |before| / 64, |before| % 64 + len);
  }

  /** At every block boundary the loop reaches, its 32-bit test means what it says. */
  lemma LoopTest(n: nat, len: Word, i: nat, blocks: nat)
    requires NoWrap(n, len) && 64 - n % 64 <= i <= len && n + i == 64 * blocks
    ensures (i + 63) % WORD < len <==> i + 64 <= len
    ensures i + 64 > len ==> i == LoopEnd(n, len)
  {
    var e := LoopEnd(n, len);
    var last := (n + len) / 64;
    assert n + e == 64 * last;
    assert blocks <= last;
    if i + 64 > len {
      assert blocks == last;
    }
  }

  lemma ShortFits(n: nat, len: nat)
    requires len <= WORD - 64
    ensures NoWrap(n, len)
  {
  }

  /** What Final appends is RFC 1321's padding. */
  lemma PaddingIsPadded(message: seq<Byte>, padding: seq<Byte>, bits: seq<Byte>)
    requires |padding| == if |message| % 64 < 56 then 56 - |message| % 64 else 120 - |message| % 64
    requires padding[0] == 0x80 && forall k :: 1 <= k < |padding| ==> padding[k] == 0
    requires bits == LittleEndian64(8 * |message|)
    ensures message + padding + bits == Padded(message)
  {
    hide LittleEndian64;
    var n := |message| % 64;
    ModUnique(55 - |message|, 64, if n < 56 then -(|message| / 64) else -(|message| / 64) - 1,
              |padding| - 1);
    assert padding == [0x80] + Zeros(|padding| - 1);
  }

  class MD5 {
    const state: array<Word>
    const count: array<Word>
    const buffer: array<Byte>
    const digestRaw: array<Byte>
    const digestChars: array<char>

    /** Everything given to Update since the last Init. */
    ghost var fed: seq<Byte>

    ghost predicate Shape() {
      && state.Length == 4 && count.Length == 2 && buffer.Length == 64
      && digestRaw.Length == 16 && digestChars.Length == 33
      && state != count && buffer != digestRaw
      && state as object != buffer && state as object != digestRaw && state as object != digestChars
      && count as object != buffer && count as object != digestRaw && count as object != digestChars
      && buffer as object != digestChars && digestRaw as object != digestChars
    }

    /** The counter is the number of bits fed, modulo 2^64. */
    ghost predicate Counted()
      requires Shape()
      reads this, count
    {
      CountIs(|fed|)
    }

    ghost predicate CountIs(n: nat)
      requires Shape()
      reads count
    {
      count[0] == 8 * n % WORD && count[1] == 8 * n / WORD % WORD
    }

    /** The state has absorbed the whole blocks; the buffer starts with the other bytes. */
    ghost predicate Streaming()
      requires Shape()
      reads this, state, count, buffer
    {
      && Counted()
      && QuadOf(state) == Absorb(IV, Whole(fed))
      && buffer[..|fed| % 64] == Rest(fed)
    }

    constructor ()
      ensures Shape() && Streaming() && fed == []
      ensures fresh(state) && fresh(count) && fresh(buffer) && fresh(digestRaw) && fresh(digestChars)
    {
      state := new Word[4];
      count := new Word[2];
      buffer := new Byte[64];
      digestRaw := new Byte[16];
      digestChars := new char[33];
      new;
      Init();
    }

    method Init()
      requires Shape()
      modifies `fed, count, state
      ensures Streaming() && fed == []
    {
      count[0], count[1] := 0, 0;
      state[0] := 0x67452301;
      state[1] := 0xefcdab89;
      state[2] := 0x98badcfe;
      state[3] := 0x10325476;
      fed := [];
    }

    /** The number of bytes waiting in the buffer: `(count[0] >> 3) & 0x3F` */
    method Index() returns (index: nat)
      requires Shape() && Counted()
      ensures index == |fed| % 64
    {
      IndexIsLength(|fed|);
      index := count[0] / 8 % 64;
    }

    /** The carry test and the `>> 29` together add 8 * inputLen to the two-word counter. */
    method AddBits(inputLen: Word, ghost n: nat)
      requires Shape() && CountIs(n)
      modifies count
      ensures count[0] + WORD * count[1] == (old(count[0] + WORD * count[1]) + 8 * inputLen) % (WORD * WORD)
      ensures CountIs(n + inputLen)
    {
      var shifted: Word := inputLen * 8 % WORD;
      count[0] := Add(count[0], shifted);
      if count[0] < shifted {
        count[1] := Add(count[1], 1);
      }
      count[1] := Add(count[1], inputLen / 0x2000_0000);
      CarryAdds(old(count[0]), old(count[1]), inputLen, count[0], count[1]);
      BitCounter(n, inputLen, old(count[0]), old(count[1]), count[0], count[1]);
    }

    method Update(input: array<Byte>, inputLen: Word)
      requires Shape() && Streaming()
      requires inputLen <= input.Length && NoWrap(|fed|, inputLen)
      requires input != buffer && input as object != state && input as object != count
      modifies `fed, state, count, buffer
      ensures Streaming() && fed == old(fed) + input[..inputLen]
    {
      hide Absorb, Compress, Rest, Whole, NoWrap, StateAfter, Steps, CountIs;
      ghost var before := fed;
      var index := Index();
      AddBits(inputLen, |fed|);
      fed := fed + input[..inputLen];
      var partLen := 64 - index;
      var i := 0;
      if inputLen >= partLen {
        i := FillAndTransform(input, inputLen, index, before);
        index := 0;
      } else {
        StillShort(before, input[..], inputLen);
      }
      ghost var kept, more := buffer[..index], input[i..inputLen];
      assert Rest(fed) == kept + more && |fed| % 64 == |kept + more|;
      Copy(buffer, index, input, i, inputLen - i);
    }

    /** Update with enough input: fills the buffer up to a block, and transforms it and what follows. */
    method FillAndTransform(input: array<Byte>, inputLen: Word, index: nat, ghost before: seq<Byte>) returns (i: nat)
      requires Shape() && inputLen <= input.Length && NoWrap(|before|, inputLen)
      requires index == |before| % 64 && 64 - index <= inputLen && fed == before + input[..inputLen]
      requires QuadOf(state) == Absorb(IV, Whole(before)) && buffer[..index] == Rest(before)
      requires input != buffer && input as object != state
      modifies state, buffer
      ensures QuadOf(state) == Absorb(IV, Whole(fed))
      ensures i <= inputLen && |fed| % 64 == inputLen - i && Rest(fed) == input[i..inputLen]
    {
      hide Absorb, Compress, Rest, Whole, NoWrap, StateAfter;
      var partLen := 64 - index;
      Copy(buffer, index, input, 0, partLen);
      assert buffer[..64] == buffer[..];
      MD5Transform(state, buffer, 0);
      FirstBlock(before, input[..], inputLen, partLen, buffer[..]);
      i := TransformBlocks(input, inputLen, partLen, before);
    }

    /** The loop of Update: as many whole blocks as the input holds. */
    method TransformBlocks(input: array<Byte>, inputLen: Word, partLen: nat, ghost before: seq<Byte>) returns (i: nat)
      requires Shape() && inputLen <= input.Length && NoWrap(|before|, inputLen)
      requires partLen == 64 - |before| % 64 <= inputLen
      requires input as object != state && fed == before + input[..inputLen]
      requires QuadOf(state) == StateAfter(fed, |before| + partLen)
      modifies state
      ensures QuadOf(state) == Absorb(IV, Whole(fed))
      ensures i <= inputLen && |fed| % 64 == inputLen - i && Rest(fed) == input[i..inputLen]
    {
      hide Absorb, Compress, Rest, Whole, NoWrap, StateAfter, Steps;
      i := partLen;
      ghost var blocks := |before| / 64 + 1;
      while (i + 63) % WORD < inputLen
        invariant partLen <= i <= inputLen && |before| + i == 64 * blocks
        invariant QuadOf(state) == StateAfter(fed, |before| + i)
        decreases inputLen - i
      {
        LoopTest(|before|, inputLen, i, blocks);
        NextBlock(before, input[..], inputLen, i, blocks);
        MD5Transform(state, input, i);
        i, blocks := i + 64, blocks + 1;
      }
      LoopTest(|before|, inputLen, i, blocks);
      LeftOver(before, input[..], inputLen, i, blocks);
    }

    /** Afterwards the digest is that of everything fed, and the context is wiped: Init must come next. */
    method Final()
      requires Shape() && Streaming()
      modifies `fed, state, count, buffer, digestRaw, digestChars
      ensures digestRaw[..] == Digest(old(fed))
      ensures digestChars[..32] == Hex(digestRaw[..]) && digestChars[32] == '\0'
      ensures Shows(digestChars[..32], digestRaw[..])
      ensures forall k :: 0 <= k < 4 ==> state[k] == 0
      ensures count[0] == 0 && count[1] == 0 && forall k :: 0 <= k < 64 ==> buffer[k] == 0
    {
      hide Absorb, Rest, Md5Codec.Bytes, Hex, Padded;
      ghost var message := fed;
      Pad();
      assert Whole(fed) == fed;
      Md5Codec.Encode(digestRaw, state, 16);
      assert state[..4] == [state[0], state[1], state[2], state[3]];
      assert digestRaw[..] == digestRaw[..16];
      Wipe();
      WriteToString();
    }

    /** Final's first half: the padding and then the length are fed like any other input. */
    method Pad()
      requires Shape() && Streaming()
      modifies `fed, state, count, buffer
      ensures Streaming() && fed == Padded(old(fed))
    {
      hide Absorb, Rest, Whole, NoWrap, Md5Codec.Bytes, LittleEndian64, Padded;
      ghost var message := fed;
      var bits := new Byte[8];
      Md5Codec.Encode(bits, count, 8);
      CounterBytes(8 * |message|);
      assert count[..2] == [count[0], count[1]];
      var index := Index();
      var padLen := if index < 56 then 56 - index else 120 - index;
      var padding := new Byte[64](k => if k == 0 then 0x80 else 0);
      PaddingIsPadded(message, padding[..padLen], bits[..8]);
      ShortFits(|fed|, padLen);
      Update(padding, padLen);
      ShortFits(|fed|, 8);
      Update(bits, 8);
    }

    /** Final's last memsets. */
    method Wipe()
      requires Shape()
      modifies state, count, buffer
      ensures forall k :: 0 <= k < 4 ==> state[k] == 0
      ensures count[0] == 0 && count[1] == 0 && forall k :: 0 <= k < 64 ==> buffer[k] == 0
    {
      forall k | 0 <= k < 4 { state[k] := 0; }
      forall k | 0 <= k < 2 { count[k] := 0; }
      forall k | 0 <= k < 64 { buffer[k] := 0; }
    }

    method WriteToString()
      requires Shape()
      modifies digestChars
      ensures digestChars[..32] == Hex(digestRaw[..]) && digestChars[32] == '\0'
      ensures Shows(digestChars[..32], digestRaw[..])
    {
      hide HexByte;
      var pos := 0;
      while pos < 16
        invariant 0 <= pos <= 16
        invariant digestChars[..2 * pos] == Hex(digestRaw[..pos])
        invariant pos > 0 ==> digestChars[2 * pos] == '\0'
      {
        var text := HexByte(digestRaw[pos]);
        digestChars[2 * pos] := text[0];
        digestChars[2 * pos + 1] := text[1];
        digestChars[2 * pos + 2] := '\0';
        assert digestRaw[..pos + 1][..pos] == digestRaw[..pos];
        pos := pos + 1;
      }
      assert digestRaw[..16] == digestRaw[..];
      HexShows(digestRaw[..]);
    }

    method DigestMemory(memchunk: array<Byte>, len: Word)
      requires Shape() && len <= memchunk.Length
      requires memchunk != buffer && memchunk as object != state && memchunk as object != count
      modifies `fed, state, count, buffer, digestRaw, digestChars
      ensures digestRaw[..] == Digest(old(memchunk[..len]))
      ensures digestChars[..32] == Hex(digestRaw[..]) && digestChars[32] == '\0'
      ensures Shows(digestChars[..32], digestRaw[..])
    {
      Init();
      WrapsAfterOne(len);
      Update(memchunk, len);
      assert fed == old(memchunk[..len]);
      Final();
    }

    /** `pieces` is what successive `fread` calls deliver; a file is the bytes of all of them. */
    method DigestFile(pieces: seq<seq<Byte>>)
      requires Shape()
      requires forall k :: 0 <= k < |pieces| ==> 1 <= |pieces[k]| <= 1024
      modifies `fed, state, count, buffer, digestRaw, digestChars
      ensures digestRaw[..] == Digest(Flatten(pieces))
      ensures digestChars[..32] == Hex(digestRaw[..]) && digestChars[32] == '\0'
      ensures Shows(digestChars[..32], digestRaw[..])
    {
      hide Absorb, Rest, Whole, NoWrap, Hex, Digest;
      Init();
      var chunk := new Byte[1024];
      var k := 0;
      assert Flatten(pieces[..0]) == [];
      hide Flatten;
      while k < |pieces|
        invariant 0 <= k <= |pieces|
        invariant Streaming()
        invariant fed == Flatten(pieces[..k])
        modifies `fed, state, count, buffer, chunk
      {
        var len := |pieces[k]|;
        forall j | 0 <= j < len { chunk[j] := pieces[k][j]; }
        assert chunk[..len] == pieces[k];
        ShortFits(|fed|, len);
        Update(chunk, len);
        FlattenNext(pieces, k);
        k := k + 1;
      }
      assert pieces[..k] == pieces;
      Final();
    }
  }
}
