/** The growing stream buffer: one array holding the input sequence and, behind it, room for output. */
module Streambufs {
  import opened Words

  const BUFFER_DELTA := 128
  const INT_MAX := 0x7fff_ffff

  /** int_type: a character or end of file. */
  datatype IntType = Eof | Ch(c: char)

  /** What a call gives back: a value, or std::length_error. */
  datatype Returned<T> = Ok(value: T) | LengthError

  /** static_cast<int> of a size_t. */
  function ToInt(n: nat): int {
    var low := n % WORD;
    if low <= INT_MAX then low else low - WORD
  }

  /** The cast keeps exactly the numbers an int can hold; from 2^31 on, bumping by it goes elsewhere. */
  lemma ToIntExact(n: nat)
    ensures ToInt(n) == n <==> n < 0x8000_0000
  {
  }

  /** The array after memmove(&b[0], &b[g], p - g). */
  function Shifted(b: seq<char>, g: nat, p: nat): (r: seq<char>)
    requires g <= p <= |b|
    ensures |r| == |b|
  {
    b[g..p] + b[p - g..]
  }

  lemma ShiftedFront(b: seq<char>, g: nat, p: nat)
    requires g <= p <= |b|
    ensures Shifted(b, g, p)[..p - g] == b[g..p]
    ensures g == 0 ==> Shifted(b, g, p) == b
  {
  }

  /** What stands between unmoved pointers after the shift: the contents from g on, and then their own end. */
  function AfterShift(held: seq<char>, g: nat): seq<char> {
    var m := Min(g, |held|);
    held[m..] + held[|held| - m..]
  }

  lemma ShiftedBehind(b: seq<char>, g: nat, p: nat)
    requires g <= p <= |b|
    ensures Shifted(b, g, p)[g..p] == AfterShift(b[g..p], g)
    ensures g >= p - g ==> AfterShift(b[g..p], g) == b[g..p]
  {
    var s, r := Shifted(b, g, p)[g..p], AfterShift(b[g..p], g);
    assert |s| == |r| == p - g;
    forall i | 0 <= i < p - g
      ensures s[i] == r[i]
    {
    }
  }

  lemma ShiftNothing(held: seq<char>)
    ensures AfterShift(held, 0) == held
  {
  }

  /**
   reserve moves the contents before it may throw, and does not move the
   pointers with them. Contents of a length survive that, whatever they are,
   exactly when the get offset is 0 or at least that length.
   */
  lemma FailedReserve(g: nat, size: nat)
    ensures (forall held: seq<char> :: |held| == size ==> AfterShift(held, g) == held) <==> (g == 0 || g >= size)
  {
    if g != 0 && g < size {
      var held := seq(size, i => if i == g then 'b' else 'a');
      assert AfterShift(held, g)[0] != held[0];
    } else {
      forall held: seq<char> | |held| == size
        ensures AfterShift(held, g) == held
      {
        assert held[..] == held;
      }
    }
  }

  // ---- The reference: a bounded first-in first-out queue ------------------

  /** One thing a user of the stream buffer does. */
  datatype Op =
    | Put(c: char)                       // sputc
    | Write(data: seq<char>, n: nat)     // prepare(|data|), fill in data, commit(n)
    | Drop(n: nat)                       // consume
    | Get                                // sbumpc

  datatype Queue = Queue(items: seq<char>, read: seq<IntType>)

  function Apply(max: nat, q: Queue, op: Op): Returned<Queue> {
    match op
    case Put(c) => if |q.items| < max then Ok(q.(items := q.items + [c])) else LengthError
    case Write(data, n) =>
      if |q.items| + |data| <= max then Ok(q.(items := q.items + data[..Min(n, |data|)])) else LengthError
    case Drop(n) => Ok(q.(items := q.items[Min(n, |q.items|)..]))
    case Get =>
      if q.items == [] then Ok(q.(read := q.read + [Eof]))
      else Ok(Queue(q.items[1..], q.read + [Ch(q.items[0])]))
  }

  /** Operations in order, up to the first that throws. */
  function ApplyAll(max: nat, q: Queue, ops: seq<Op>): Returned<Queue> {
    if ops == [] then Ok(q)
    else match ApplyAll(max, q, ops[..|ops| - 1])
      case LengthError => LengthError
      case Ok(r) => Apply(max, r, ops[|ops| - 1])
  }

  /** A queue within its bound stays within it. */
  lemma {:induction false} ApplyAllBounded(max: nat, q: Queue, ops: seq<Op>)
    requires |q.items| <= max
    ensures ApplyAll(max, q, ops).Ok? ==> |ApplyAll(max, q, ops).value.items| <= max
  {
    if ops != [] {
      ApplyAllBounded(max, q, ops[..|ops| - 1]);
    }
  }

  /** Every character the operations append, in order. */
  function Appended(ops: seq<Op>): seq<char> {
    if ops == [] then [] else Appended(ops[..|ops| - 1]) + AppendedBy(ops[|ops| - 1])
  }

  function AppendedBy(op: Op): seq<char> {
    match op
    case Put(c) => [c]
    case Write(data, n) => data[..Min(n, |data|)]
    case _ => []
  }

  function Characters(read: seq<IntType>): seq<char> {
    if read == [] then [] else
    Characters(read[..|read| - 1]) + if read[|read| - 1].Ch? then [read[|read| - 1].c] else []
  }

  /**
   With nothing dropped, what was read and what is still held are what was
   appended: no loss, no repeats, in order.
   */
  lemma {:induction false} FirstInFirstOut(max: nat, q: Queue, ops: seq<Op>)
    requires ApplyAll(max, q, ops).Ok? && forall k :: 0 <= k < |ops| ==> !ops[k].Drop?
    ensures var r := ApplyAll(max, q, ops).value;
            Characters(r.read) + r.items == Characters(q.read) + q.items + Appended(ops)
  {
    if ops != [] {
      hide Apply, Characters, AppendedBy;
      var front, op := ops[..|ops| - 1], ops[|ops| - 1];
      FirstInFirstOut(max, q, front);
      var p := ApplyAll(max, q, front).value;
      FirstInFirstOutOnce(max, p, op);
      Regroup(Characters(q.read) + q.items, Appended(front), AppendedBy(op));
    }
  }

  lemma Regroup(x: seq<char>, y: seq<char>, z: seq<char>)
    ensures x + (y + z) == x + y + z
  {
  }

  lemma FirstInFirstOutOnce(max: nat, p: Queue, op: Op)
    requires Apply(max, p, op).Ok? && !op.Drop?
    ensures var r := Apply(max, p, op).value;
            Characters(r.read) + r.items == Characters(p.read) + p.items + AppendedBy(op)
  {
    match op
    case Put(_) =>
    case Write(_, _) =>
    case Get => TakesFirst(p);
  }

  lemma TakesFirst(p: Queue)
    ensures var r := Apply(0, p, Get).value;
            Characters(r.read) + r.items == Characters(p.read) + p.items
  {
    if p.items == [] {
      CharactersNext(p.read, Eof);
    } else {
      CharactersNext(p.read, Ch(p.items[0]));
      hide Characters;
      assert p.items == [p.items[0]] + p.items[1..];
      Regroup(Characters(p.read), [p.items[0]], p.items[1..]);
    }
  }

  lemma CharactersNext(read: seq<IntType>, c: IntType)
    ensures Characters(read + [c]) == Characters(read) + if c.Ch? then [c.c] else []
  {
    assert (read + [c])[..|read|] == read;
  }

  /** commit needs room prepared for it, and the int casts need counts an int can hold. */
  predicate Proper(op: Op) {
    match op
    case Write(data, n) => n <= |data| && n <= INT_MAX
    case Drop(n) => n <= INT_MAX
    case _ => true
  }

  /** Only counts of 2^31 and more, and commits of more than was prepared, are left out. */
  lemma ProperExact(op: Op)
    ensures !Proper(op) <==>
      || (op.Write? && (op.n > |op.data| || op.n >= 0x8000_0000))
      || (op.Drop? && op.n >= 0x8000_0000)
  {
  }

  class BasicStreambuf {
    const maxSize: nat
    var buffer: array<char>
    var gptr: nat
    var egptr: nat
    var pptr: nat
    var epptr: nat

    ghost predicate Valid()
      reads this
    {
      gptr <= egptr <= pptr <= epptr <= buffer.Length && epptr <= maxSize && buffer.Length >= 1
    }

    /** The input sequence. */
    ghost function Contents(): seq<char>
      requires Valid()
      reads this, buffer
    {
      buffer[gptr..pptr]
    }

    constructor (maximumSize: nat)
      ensures Valid() && fresh(buffer) && maxSize == maximumSize && Contents() == []
      ensures gptr == 0 && epptr == Min(maxSize, 128) && buffer.Length == Max(epptr, 1)
    {
      maxSize := maximumSize;
      var pend := Min(maximumSize, BUFFER_DELTA);
      buffer := new char[Max(pend, 1)](_ => '\0');
      gptr, egptr, pptr, epptr := 0, 0, 0, pend;
    }

    function Size(): (n: nat)
      requires Valid()
      reads this, buffer
      ensures n == |Contents()| <= maxSize
    {
      pptr - gptr
    }

    /** std::vector::resize; the first k elements are among those kept. */
    method Resize(n: nat, ghost k: nat)
      requires k <= n && k <= buffer.Length
      modifies this`buffer
      ensures fresh(buffer) && buffer.Length == n
      ensures buffer[..k] == old(buffer[..k])
    {
      var kept := Min(n, buffer.Length);
      var b := new char[n](_ => '\0');
      forall i | 0 <= i < kept { b[i] := buffer[i]; }
      buffer := b;
    }

    /** memmove(&buffer_[0], &buffer_[0] + g, p - g) */
    method Memmove(g: nat, p: nat)
      requires g <= p <= buffer.Length
      modifies buffer
      ensures buffer[..] == Shifted(old(buffer[..]), g, p)
    {
      forall i | 0 <= i < p - g { buffer[i] := buffer[g + i]; }
    }

    /** The contents move to the front; the pointers stay. */
    method ShiftDown()
      requires Valid()
      modifies buffer
      ensures Contents() == AfterShift(old(Contents()), gptr)
      ensures buffer[..Size()] == old(Contents())
      ensures gptr >= Size() ==> Contents() == old(Contents())
    {
      hide Shifted;
      ShiftedFront(buffer[..], gptr, pptr);
      ShiftedBehind(buffer[..], gptr, pptr);
      Memmove(gptr, pptr);
    }

    /** setg and setp over contents that stand at the front. */
    method Land(pnext: nat, pend: nat)
      requires pnext <= pend <= buffer.Length && pend <= maxSize && buffer.Length >= 1
      modifies `gptr, `egptr, `pptr, `epptr
      ensures Valid() && (gptr, egptr, pptr, epptr) == (0, pnext, pnext, pend)
      ensures Contents() == buffer[..pnext]
    {
      gptr, egptr := 0, pnext;
      pptr, epptr := pnext, pend;
    }

    /** Room for n more characters, or length_error; the contents change only on failure. */
    method Reserve(n: nat) returns (r: Returned<()>)
      requires Valid()
      modifies this, buffer
      ensures Valid() && (buffer == old(buffer) || fresh(buffer))
      ensures r.Ok? <==> old(Size()) + n <= maxSize
      ensures r.Ok? ==> Contents() == old(Contents()) && epptr - pptr >= n
      ensures n <= old(epptr - pptr) ==> (gptr, epptr) == old((gptr, epptr))
      ensures buffer == old(buffer) || buffer.Length == Max(epptr, 1)
      ensures r.Ok? && n > old(epptr - pptr) ==> gptr == 0 && epptr == Max(old(epptr), old(Size()) + n)
      ensures r.LengthError? ==>
        && buffer == old(buffer) && (gptr, egptr, pptr, epptr) == old((gptr, egptr, pptr, epptr))
        && Contents() == AfterShift(old(Contents()), gptr)
        && (gptr == 0 || gptr >= old(Size()) ==> Contents() == old(Contents()))
    {
      hide AfterShift;
      var gnext, pnext, pend := gptr, pptr, epptr;
      if n <= pend - pnext {
        return Ok(());
      }
      ghost var held := Contents();
      if gnext > 0 {
        pnext := pnext - gnext;
        ShiftDown();
      } else {
        ShiftNothing(held);
      }
      if n > pend - pnext {
        if n <= maxSize && pnext <= maxSize - n {
          pend := pnext + n;
          Resize(Max(pend, 1), pnext);
        } else {
          return LengthError;
        }
      }
      Land(pnext, pend);
      r := Ok(());
    }

    /** The address of n writable characters behind the input sequence. */
    method Prepare(n: nat) returns (r: Returned<nat>)
      requires Valid()
      modifies this, buffer
      ensures Valid() && (buffer == old(buffer) || fresh(buffer))
      ensures r.Ok? <==> old(Size()) + n <= maxSize
      ensures r.Ok? ==> Contents() == old(Contents()) && r.value == pptr && epptr - pptr >= n
      ensures r.LengthError? ==>
        && buffer == old(buffer) && (gptr, egptr, pptr, epptr) == old((gptr, egptr, pptr, epptr))
        && Contents() == AfterShift(old(Contents()), gptr)
        && (gptr == 0 || gptr >= old(Size()) ==> Contents() == old(Contents()))
    {
      var done := Reserve(n);
      if done.LengthError? {
        return LengthError;
      }
      r := Ok(pptr);
    }

    /** Appends what stands at the start of the output sequence, as much as there is of it. */
    method Commit(n0: nat)
      requires Valid() && Min(n0, epptr - pptr) <= INT_MAX
      modifies this
      ensures Valid() && buffer == old(buffer) && epptr == old(epptr) && egptr == pptr
      ensures Contents() == old(Contents()) + old(buffer[pptr..pptr + Min(n0, epptr - pptr)])
    {
      hide ToInt;
      var n := n0;
      if pptr + n > epptr {
        n := epptr - pptr;
      }
      ToIntExact(n);
      pptr := pptr + ToInt(n);
      egptr := pptr;
      assert buffer[gptr..pptr] == old(buffer[gptr..pptr]) + buffer[old(pptr)..pptr];
    }

    /** gbump */
    method Skip(ghost n: nat, count: int)
      requires Valid() && gptr + n <= egptr && count == n
      modifies `gptr
      ensures Valid() && gptr == old(gptr) + n && Contents() == old(Contents())[n..]
    {
      gptr := gptr + count;
    }

    /** Drops n characters from the front, or all of them. */
    method Consume(n0: nat)
      requires Valid() && Min(n0, Size()) <= INT_MAX
      modifies this
      ensures Valid() && buffer == old(buffer)
      ensures Contents() == old(Contents())[Min(n0, old(Size()))..]
    {
      hide ToInt;
      if egptr < pptr {
        egptr := pptr;
      }
      var n := n0;
      if gptr + n > pptr {
        n := pptr - gptr;
      }
      ToIntExact(n);
      Skip(n, ToInt(n));
    }

    /** The first character, without removing it. */
    method Underflow() returns (c: IntType)
      requires Valid()
      modifies this
      ensures Valid() && buffer == old(buffer) && Contents() == old(Contents())
      ensures c == if Contents() == [] then Eof else Ch(Contents()[0])
      ensures c.Ch? ==> gptr < egptr
      ensures (gptr, pptr, epptr) == old((gptr, pptr, epptr))
    {
      if gptr < pptr {
        egptr := pptr;
        c := Ch(buffer[gptr]);
      } else {
        c := Eof;
      }
    }

    /** `*pptr() = c; pbump(1);` */
    method Append(c: char)
      requires Valid() && pptr < epptr
      modifies this`pptr, buffer
      ensures Valid() && Contents() == old(Contents()) + [c]
    {
      ghost var held := Contents();
      buffer[pptr] := c;
      pptr := pptr + 1;
      assert buffer[gptr..pptr - 1] == held;
    }

    /**
     Appends one character; with no room left it fails exactly when the buffer
     is at its maximum, and changes nothing.
     */
    method Overflow(c: IntType) returns (r: Returned<IntType>)
      requires Valid()
      modifies this, buffer
      ensures Valid() && (buffer == old(buffer) || fresh(buffer))
      ensures r.LengthError? <==> c.Ch? && old(pptr == epptr) && old(Size()) == maxSize
      ensures r.LengthError? || c.Eof? ==> Contents() == old(Contents())
      ensures r.Ok? && c.Ch? ==> Contents() == old(Contents()) + [c.c] && r.value == c
      ensures r.Ok? && c.Ch? && old(pptr == epptr) ==>
        gptr == 0 && epptr == Max(old(epptr), Min(maxSize, old(Size()) + 128))
      ensures r.Ok? ==> r.value.Ch?
    {
      if c.Ch? {
        if pptr == epptr {
          var bufferSize := pptr - gptr;
          var done: Returned<()>;
          if bufferSize < maxSize && maxSize - bufferSize < BUFFER_DELTA {
            done := Reserve(maxSize - bufferSize);
          } else {
            done := Reserve(BUFFER_DELTA);
          }
          if done.LengthError? {
            assert gptr == 0;
            return LengthError;
          }
        }
        Append(c.c);
        return Ok(c);
      }
      r := Ok(Ch('\0'));
    }

    /** std::streambuf::sputc */
    method Sputc(c: char) returns (r: Returned<IntType>)
      requires Valid()
      modifies this, buffer
      ensures Valid() && (buffer == old(buffer) || fresh(buffer))
      ensures r.Ok? <==> old(Size()) < maxSize
      ensures Contents() == if r.Ok? then old(Contents()) + [c] else old(Contents())
      ensures old(pptr < epptr) ==> buffer == old(buffer) && gptr == old(gptr) && epptr == old(epptr)
    {
      if pptr < epptr {
        Append(c);
        return Ok(Ch(c));
      }
      r := Overflow(Ch(c));
    }

    /** std::streambuf::sbumpc */
    method Sbumpc() returns (c: IntType)
      requires Valid()
      modifies this
      ensures Valid() && buffer == old(buffer)
      ensures c == if old(Contents()) == [] then Eof else Ch(old(Contents())[0])
      ensures Contents() == if c.Eof? then [] else old(Contents())[1..]
      ensures (gptr, pptr, epptr) == (if c.Eof? then old(gptr) else old(gptr) + 1, old(pptr), old(epptr))
    {
      if gptr < egptr {
        c := Ch(buffer[gptr]);
        gptr := gptr + 1;
        return;
      }
      c := Underflow();
      if c.Ch? {
        gptr := gptr + 1;
      }
    }

    /** A read size that prepare can always serve; `capacity` is the vector's, at least its size. */
    method ReadSizeHelper(capacity: nat, max: nat) returns (n: nat)
      requires Valid() && capacity >= buffer.Length
      ensures Size() + n <= maxSize && n <= max
      ensures n == max || Size() + n == maxSize || n == 512 || Size() + n == capacity
      ensures n < max && Size() + n < maxSize ==> n >= 512 && Size() + n >= capacity
      ensures n <= 512 || Size() + n <= capacity
    {
      n := Min(Max(512, capacity - (pptr - gptr)), Min(max, maxSize - (pptr - gptr)));
    }

    /** The user fills in prepared space. */
    method Fill(at: nat, data: seq<char>)
      requires Valid() && at == pptr && at + |data| <= epptr
      modifies buffer
      ensures Valid() && Contents() == old(Contents())
      ensures forall i :: 0 <= i < |data| ==> buffer[pptr + i] == data[i]
    {
      forall i | 0 <= i < |data| { buffer[at + i] := data[i]; }
    }

    /** The documented way to receive: prepare, let the data be written there, commit what came. */
    method PrepareAndCommit(data: seq<char>, n: nat) returns (r: Returned<()>)
      requires Valid() && n <= |data| && n <= INT_MAX
      modifies this, buffer
      ensures Valid() && (buffer == old(buffer) || fresh(buffer))
      ensures r.Ok? <==> old(Size()) + |data| <= maxSize
      ensures r.Ok? ==> Contents() == old(Contents()) + data[..n]
    {
      hide AfterShift, ToInt;
      var at := Prepare(|data|);
      if at.LengthError? {
        return LengthError;
      }
      FillAndCommit(at.value, data, n);
      r := Ok(());
    }

    method FillAndCommit(at: nat, data: seq<char>, n: nat)
      requires Valid() && at == pptr && at + |data| <= epptr && n <= |data| && n <= INT_MAX
      modifies this, buffer
      ensures Valid() && buffer == old(buffer) && Contents() == old(Contents()) + data[..n]
    {
      Fill(at, data);
      assert buffer[pptr..pptr + n] == data[..n];
      Commit(n);
    }

    method Perform(op: Op) returns (r: Returned<seq<IntType>>)
      requires Valid() && Proper(op)
      modifies this, buffer
      ensures Valid() && (buffer == old(buffer) || fresh(buffer))
      ensures match Apply(maxSize, Queue(old(Contents()), []), op)
        case LengthError => r.LengthError?
        case Ok(q) => r.Ok? && Contents() == q.items && r.value == q.read
    {
      match op
      case Put(c) =>
        var done := Sputc(c);
        r := if done.Ok? then Ok([]) else LengthError;
      case Write(data, n) =>
        var done := PrepareAndCommit(data, n);
        r := if done.Ok? then Ok([]) else LengthError;
      case Drop(n) =>
        Consume(n);
        r := Ok([]);
      case Get =>
        var c := Sbumpc();
        r := Ok([c]);
    }
  }

  /** Every run behaves as the bounded queue does: same items, same characters read, same moment of failure. */
  method PerformAll(sb: BasicStreambuf, ops: seq<Op>) returns (r: Returned<seq<IntType>>)
    requires sb.Valid() && forall k :: 0 <= k < |ops| ==> Proper(ops[k])
    modifies sb, sb.buffer
    ensures sb.Valid()
    ensures match ApplyAll(sb.maxSize, Queue(old(sb.Contents()), []), ops)
      case LengthError => r.LengthError?
      case Ok(q) => r.Ok? && sb.Contents() == q.items && r.value == q.read
  {
    ghost var q0 := Queue(sb.Contents(), []);
    var read := [];
    var k := 0;
    assert ops[..0] == [];
    while k < |ops|
      invariant 0 <= k <= |ops| && sb.Valid() && (sb.buffer == old(sb.buffer) || fresh(sb.buffer))
      invariant ApplyAll(sb.maxSize, q0, ops[..k]) == Ok(Queue(sb.Contents(), read))
    {
      assert ops[..k + 1][..k] == ops[..k];
      ghost var items := sb.Contents();
      var done := sb.Perform(ops[k]);
      ApplyReads(sb.maxSize, items, read, ops[k]);
      if done.LengthError? {
        StopsForGood(sb.maxSize, q0, ops, k + 1);
        return LengthError;
      }
      read := read + done.value;
      k := k + 1;
    }
    assert ops[..k] == ops;
    r := Ok(read);
  }

  /** Of "abc" the first character is read; then a prepare that fails turns the other two into "cc". */
  method FailedPrepareCorrupts() returns (sb: BasicStreambuf, before: seq<char>, r: Returned<nat>)
    ensures sb.Valid() && before == "bc" && r == LengthError && sb.Contents() == "cc"
  {
    assert AfterShift("bc", 1) == ['c'] + ['c'];
    hide AfterShift;
    sb := new BasicStreambuf(4);
    var put := sb.Sputc('a');
    put := sb.Sputc('b');
    put := sb.Sputc('c');
    assert sb.Contents() == "abc";
    var got := sb.Sbumpc();
    assert "abc"[1..] == "bc";
    before := "bc";
    r := sb.Prepare(3);
  }

  /** What was read before does not matter to the next operation. */
  lemma ApplyReads(max: nat, items: seq<char>, read: seq<IntType>, op: Op)
    ensures match Apply(max, Queue(items, []), op)
      case LengthError => Apply(max, Queue(items, read), op).LengthError?
      case Ok(q) => Apply(max, Queue(items, read), op) == Ok(Queue(q.items, read + q.read))
  {
    assert read + [] == read;
    assert forall c: IntType {:trigger [c]} :: [] + [c] == [c];
  }

  lemma {:induction false} StopsForGood(max: nat, q: Queue, ops: seq<Op>, k: nat)
    requires k <= |ops| && ApplyAll(max, q, ops[..k]).LengthError?
    ensures ApplyAll(max, q, ops).LengthError?
    decreases |ops|
  {
    if k == |ops| {
      assert ops[..k] == ops;
    } else {
      assert ops[..|ops| - 1][..k] == ops[..k];
      StopsForGood(max, q, ops[..|ops| - 1], k);
    }
  }
}
