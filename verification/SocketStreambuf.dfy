/** The socket stream buffer: a put area flushed by partial sends, and a get area filled by receives. */
module SocketStreambufs {
  import opened Words
  import opened Streambufs
  import opened SocketTransfers

  const BUFFER_SIZE := 512
  const PUTBACK_MAX := 8
  const GET_MAX := BUFFER_SIZE - PUTBACK_MAX

  /** The peer, as the stream buffer sees it: any schedule of completions, any incoming bytes. */
  class Socket {
    var schedule: seq<Completion>
    var incoming: seq<char>
    ghost var sent: seq<char>
    ghost var received: seq<char>

    constructor (completions: seq<Completion>, arriving: seq<char>)
      ensures schedule == completions && incoming == arriving && sent == [] && received == []
    {
      schedule, incoming, sent, received := completions, arriving, [], [];
    }

    /** What the next transfer of up to `limit` bytes does. */
    function Next(limit: nat): Completion
      requires limit > 0
      reads this
    {
      if schedule == [] then Failed(Other(0), false)
      else if schedule[0].Moved? then Moved(Count(schedule[0].n, limit), schedule[0].due)
      else schedule[0]
    }

    method Send(data: seq<char>) returns (c: Completion)
      requires data != []
      modifies this
      ensures c == old(Next(|data|)) && (c.Moved? ==> c.n <= |data|)
      ensures schedule == if old(schedule) == [] then [] else old(schedule)[1..]
      ensures sent == old(sent) + (if c.Moved? then data[..c.n] else [])
      ensures received == old(received) && incoming == old(incoming)
    {
      c := Next(|data|);
      schedule := if schedule == [] then [] else schedule[1..];
      sent := sent + (if c.Moved? then data[..c.n] else []);
    }

    /** Once nothing more comes in, a receive ends with an error. */
    method Receive(limit: nat) returns (c: Completion, data: seq<char>)
      requires limit > 0
      modifies this
      ensures c.Moved? <==> old(incoming) != [] && old(schedule) != [] && old(schedule)[0].Moved?
      ensures c.Moved? ==> c.n == |data| == Count(old(schedule)[0].n, Min(limit, |old(incoming)|))
      ensures c.Failed? ==> data == []
      ensures c.Failed? ==>
        var obstacle := old(Line(schedule, NoTimer)).Obstacle();
        c.error == if obstacle == NoError then Other(0) else obstacle
      ensures c.due == (old(schedule) != [] && old(schedule)[0].due)
      ensures schedule == if old(schedule) == [] then [] else old(schedule)[1..]
      ensures received == old(received) + data && sent == old(sent)
      ensures old(incoming) == data + incoming
    {
      if incoming == [] {
        c := if schedule != [] && schedule[0].Moved? then Failed(Other(0), schedule[0].due) else Next(limit);
        data := [];
      } else {
        c := Next(Min(limit, |incoming|));
        data := if c.Moved? then incoming[..c.n] else [];
      }
      schedule := if schedule == [] then [] else schedule[1..];
      incoming := incoming[|data|..];
      received := received + data;
    }
  }

  class SocketStreambuf {
    const socket: Socket
    const putBuffer: array<char>
    const getBuffer: array<char>
    var unbuffered: bool
    var ec: ErrorCode
    var timerState: TimerState
    var gptr: nat
    var egptr: nat
    var pptr: nat
    var epptr: nat

    /** The characters taken out of the get area so far. */
    ghost var delivered: seq<char>

    ghost predicate Valid()
      reads this
    {
      && putBuffer.Length == BUFFER_SIZE && getBuffer.Length == BUFFER_SIZE && putBuffer != getBuffer
      && PUTBACK_MAX <= gptr <= egptr <= BUFFER_SIZE
      && pptr <= epptr && epptr == if unbuffered then 0 else BUFFER_SIZE
    }

    /** Characters accepted and not yet known to be sent. */
    ghost function Pending(): seq<char>
      requires Valid()
      reads this, putBuffer
    {
      putBuffer[..pptr]
    }

    /** Characters received and not yet read. */
    ghost function Unread(): seq<char>
      requires Valid()
      reads this, getBuffer
    {
      getBuffer[gptr..egptr]
    }

    /** Everything that can still be read. */
    ghost function Input(): seq<char>
      requires Valid()
      reads this, getBuffer, socket
    {
      Unread() + socket.incoming
    }

    /** What decides how the next transfers go. */
    ghost function Status(): Line
      reads this, socket
    {
      Line(socket.schedule, timerState)
    }

    /** What overflow(c) has to send. */
    ghost function Outgoing(c: IntType): seq<char>
      requires Valid()
      reads this, putBuffer
    {
      if !unbuffered then Pending() else if c.Ch? then [c.c] else []
    }

    constructor (s: Socket)
      ensures Valid() && socket == s && !unbuffered && timerState == NoTimer && Pending() == [] && Unread() == []
      ensures ec == NoError && delivered == [] && fresh(putBuffer) && fresh(getBuffer)
      ensures epptr == putBuffer.Length == getBuffer.Length == 512 && gptr == egptr == 8
    {
      socket := s;
      putBuffer := new char[BUFFER_SIZE](_ => '\0');
      getBuffer := new char[BUFFER_SIZE](_ => '\0');
      unbuffered, timerState, ec := false, NoTimer, NoError;
      gptr, egptr, pptr, epptr := PUTBACK_MAX, PUTBACK_MAX, 0, BUFFER_SIZE;
      delivered := [];
    }

    /** timer_handler: a timer that is not due yet, because it was moved, waits on. */
    method TimerHandler(due: bool)
      requires Valid()
      modifies `timerState
      ensures Valid() && timerState == if due then Expired else Waiting
    {
      timerState := if due then Expired else Waiting;
    }

    /** run_one, as far as the timer goes: its handler runs only while the timer is pending. */
    method RunOne(due: bool)
      requires Valid()
      modifies `timerState
      ensures Valid() && timerState == if old(timerState).Waiting? && due then Expired else old(timerState)
    {
      if timerState.Waiting? {
        TimerHandler(due);
      }
    }

    /** expires_at: a timer that is not pending is started, and so looked at once; a pending one waits on. */
    method ExpiresAt(now: int, expiry: int)
      requires Valid()
      modifies `timerState
      ensures Valid() && (timerState == Expired <==> old(timerState) != Waiting && expiry <= now)
      ensures timerState != NoTimer
    {
      if timerState != Waiting {
        TimerHandler(!(now < expiry));
      }
    }

    method InitBuffers()
      requires Valid()
      modifies `gptr, `egptr, `pptr, `epptr
      ensures Valid() && Pending() == [] && Unread() == []
    {
      gptr, egptr := PUTBACK_MAX, PUTBACK_MAX;
      if unbuffered {
        pptr, epptr := 0, 0;
      } else {
        pptr, epptr := 0, BUFFER_SIZE;
      }
    }

    /** One asynchronous send, unless the timer has expired; 0 stands for an error. */
    method SendSome(data: seq<char>) returns (n: nat)
      requires Valid() && data != []
      modifies `ec, `timerState, socket
      ensures Valid() && socket.received == old(socket.received) && socket.incoming == old(socket.incoming)
      ensures n <= |data| && socket.sent == old(socket.sent) + data[..n]
      ensures n == if old(Status()).Ready() then Count(old(socket.schedule)[0].n, |data|) else 0
      ensures Status() == if old(timerState).Expired? then old(Status()) else old(Status()).Next()
      ensures ec == old(Status()).Obstacle() && (n == 0 <==> ec != NoError)
    {
      if timerState == Expired {
        ec := OperationAborted;
        return 0;
      }
      var done := socket.Send(data);
      RunOne(done.due);
      if done.Failed? {
        ec := done.error;
        return 0;
      }
      ec := NoError;
      n := done.n;
    }

    /** Sends the put area in as many pieces as the socket takes; less than all of it stands for an error. */
    method SendPending() returns (start: nat)
      requires Valid()
      modifies `ec, `timerState, socket
      ensures Valid() && socket.received == old(socket.received) && socket.incoming == old(socket.incoming)
      ensures var o := Transfer(old(Status()), pptr);
              start == o.moved && Status() == o.after && ec == if pptr == 0 then old(ec) else o.stop
      ensures start <= pptr && socket.sent == old(socket.sent) + Pending()[..start]
    {
      hide Transfer;
      ghost var all, line := Pending(), Status();
      start := 0;
      while pptr - start > 0
        invariant 0 <= start <= pptr && Valid() && Pending() == all
        invariant socket.sent == old(socket.sent) + all[..start]
        invariant socket.received == old(socket.received) && socket.incoming == old(socket.incoming)
        invariant var rest := Transfer(Status(), pptr - start);
                  Transfer(line, pptr) == Outcome(start + rest.moved, rest.after, rest.stop)
        invariant ec == if start == 0 then old(ec) else NoError
        decreases pptr - start
      {
        TransferStep(Status(), pptr - start);
        assert putBuffer[start..pptr] == all[start..];
        var n := SendSome(putBuffer[start..pptr]);
        if n == 0 {
          return;
        }
        PrefixNext(all, start, n);
        start := start + n;
      }
      TransferNone(Status());
    }

    lemma PrefixNext(all: seq<char>, start: nat, n: nat)
      requires start + n <= |all|
      ensures all[..start] + all[start..][..n] == all[..start + n]
    {
    }

    /**
     Sends the put area in as many pieces as the socket takes. It succeeds
     exactly when the line can carry all of it, and then all of it has gone
     out, once and in order; otherwise what the line could carry has gone out
     and the put area still holds all of it.
     */
    method Overflow(c: IntType) returns (r: IntType)
      requires Valid()
      modifies `ec, `timerState, `pptr, `epptr, putBuffer, socket
      ensures Valid() && socket.received == old(socket.received) && socket.incoming == old(socket.incoming)
      ensures var o := Transfer(old(Status()), |old(Outgoing(c))|);
              && socket.sent == old(socket.sent) + old(Outgoing(c))[..o.moved] && Status() == o.after
              && (r.Ch? <==> o.moved == |old(Outgoing(c))|)
              && ec == if old(Outgoing(c)) == [] then old(ec) else o.stop
      ensures Pending() == if r.Eof? then old(Pending()) else if c.Ch? && !unbuffered then [c.c] else []
      ensures c.Ch? && r.Ch? ==> r == c
    {
      if unbuffered {
        if c.Eof? {
          return Ch('\0');
        }
        var n := SendSome([c.c]);
        if n == 0 {
          return Eof;
        }
        return c;
      }
      var start := SendPending();
      if start < pptr {
        return Eof;
      }
      pptr, epptr := 0, BUFFER_SIZE;
      if c.Eof? {
        return Ch('\0');
      }
      putBuffer[pptr] := c.c;
      pptr := pptr + 1;
      r := c;
    }

    /** On success everything pending is sent, and that is exactly when the line can carry it. */
    method Sync() returns (r: IntType)
      requires Valid()
      modifies `ec, `timerState, `pptr, `epptr, putBuffer, socket
      ensures Valid() && socket.received == old(socket.received) && socket.incoming == old(socket.incoming)
      ensures var o := Transfer(old(Status()), |old(Pending())|);
              && socket.sent == old(socket.sent) + old(Pending())[..o.moved] && Status() == o.after
              && (r.Ch? <==> o.moved == |old(Pending())|)
              && ec == if old(Pending()) == [] then old(ec) else o.stop
      ensures Pending() == if r.Eof? then old(Pending()) else []
    {
      r := Overflow(Eof);
    }

    /**
     std::streambuf::sputc: the character is accepted exactly when there is
     room for it or the line can carry what has to go out to make room.
     */
    method Sputc(c: char) returns (r: IntType)
      requires Valid()
      modifies `ec, `timerState, `pptr, `epptr, putBuffer, socket
      ensures Valid() && socket.received == old(socket.received) && socket.incoming == old(socket.incoming)
      ensures var n := FlushedBy(PutChar(c), old(|Pending()|), unbuffered);
              var o := Transfer(old(Status()), n);
              && (r.Ch? <==> o.moved == n) && Status() == o.after && ec == (if n == 0 then old(ec) else o.stop)
              && socket.sent == old(socket.sent) + old(Outgoing(Ch(c)))[..o.moved]
      ensures r.Ch? ==> socket.sent + Pending() == old(socket.sent + Pending()) + [c]
      ensures r.Ch? ==> |Pending()| == HeldAfter(PutChar(c), old(|Pending()|), unbuffered)
      ensures r.Eof? ==> Pending() == old(Pending())
    {
      if pptr < epptr {
        ghost var held := Pending();
        putBuffer[pptr] := c;
        pptr := pptr + 1;
        assert putBuffer[..pptr - 1] == held;
        TransferNone(Status());
        return Ch(c);
      }
      r := Overflow(Ch(c));
    }

    /** setbuf(0, 0) with nothing pending makes the stream unbuffered; anything else is refused. */
    method SetBuf(isNull: bool, n: int) returns (done: bool)
      requires Valid()
      modifies `unbuffered, `pptr, `epptr
      ensures Valid() && Pending() == old(Pending())
      ensures done == (old(Pending()) == [] && isNull && n == 0)
      ensures unbuffered == (old(unbuffered) || done)
    {
      if pptr == 0 && isNull && n == 0 {
        unbuffered := true;
        pptr, epptr := 0, 0;
        return true;
      }
      done := false;
    }

    /**
     Flushes, closes, and forgets both areas. The result tells only of the
     close: when it succeeds on a line that cannot carry what is pending, the
     characters still unsent are gone.
     */
    method Close(closeError: ErrorCode) returns (ok: bool)
      requires Valid()
      modifies `ec, `timerState, `gptr, `egptr, `pptr, `epptr, putBuffer, socket
      ensures Valid() && ok == (closeError == NoError) && ec == closeError
      ensures socket.sent == old(socket.sent) + old(Pending())[..Transfer(old(Status()), |old(Pending())|).moved]
      ensures ok ==> Pending() == [] && Unread() == []
      ensures ok ==> (socket.sent + Pending() == old(socket.sent + Pending())
                      <==> Sends(old(Status()), |old(Pending())|))
      ensures !ok ==> Pending() == if Sends(old(Status()), |old(Pending())|) then [] else old(Pending())
    {
      ghost var pending, sent := Pending(), socket.sent;
      var synced := Sync();
      ec := closeError;
      if ec == NoError {
        InitBuffers();
      }
      ok := ec == NoError;
      assert |socket.sent| == |sent| + Transfer(old(Status()), |pending|).moved;
    }

    /** A receive can deliver something. */
    ghost predicate Receivable()
      reads this, socket
    {
      Status().Ready() && socket.incoming != []
    }

    /** Received characters stand in the get area behind the room for putback. */
    method SetGet(data: seq<char>)
      requires Valid() && |data| <= GET_MAX
      modifies `gptr, `egptr, getBuffer
      ensures Valid() && Unread() == data
    {
      forall i | 0 <= i < |data| { getBuffer[PUTBACK_MAX + i] := data[i]; }
      gptr, egptr := PUTBACK_MAX, PUTBACK_MAX + |data|;
    }

    /** Refills an empty get area, if a receive delivers; called on one that is not empty, it reports end of file. */
    method Underflow() returns (c: IntType)
      requires Valid()
      modifies `ec, `timerState, `gptr, `egptr, getBuffer, socket
      ensures Valid() && socket.sent == old(socket.sent)
      ensures c.Ch? <==> old(Unread()) == [] && old(Receivable())
      ensures c.Eof? ==> Unread() == old(Unread()) && socket.received == old(socket.received)
      ensures c.Eof? ==> socket.incoming == old(socket.incoming)
      ensures c.Ch? ==>
        var m := Count(old(socket.schedule)[0].n, Min(504, |old(socket.incoming)|));
        && Unread() == old(socket.incoming)[..m] && socket.incoming == old(socket.incoming)[m..]
        && c.c == Unread()[0] && socket.received == old(socket.received) + Unread()
        && Status() == old(Status()).Next()
      ensures ec == if old(Unread()) != [] then old(ec)
                    else if old(Status()).Ready() && old(socket.incoming) == [] then Other(0)
                    else old(Status()).Obstacle()
    {
      if gptr == egptr {
        if timerState == Expired {
          ec := OperationAborted;
          return Eof;
        }
        var done, data := socket.Receive(GET_MAX);
        RunOne(done.due);
        if done.Failed? {
          ec := done.error;
          return Eof;
        }
        ec := NoError;
        SetGet(data);
        c := Ch(getBuffer[gptr]);
      } else {
        c := Eof;
      }
    }

    /**
     std::streambuf::sbumpc: the first character not yet read, exactly when one
     is there or the next receive delivers; whatever the sizes of the receives,
     characters come out in order, once each.
     */
    method Sbumpc() returns (c: IntType)
      requires Valid()
      modifies `ec, `timerState, `gptr, `egptr, `delivered, getBuffer, socket
      ensures Valid() && socket.sent == old(socket.sent)
      ensures c.Ch? <==> old(Unread()) != [] || old(Receivable())
      ensures c.Ch? ==> [c.c] + Input() == old(Input())
      ensures c.Eof? ==> Unread() == [] && socket.incoming == old(socket.incoming)
      ensures delivered == old(delivered) + (if c.Ch? then [c.c] else [])
      ensures old(socket.received == delivered + Unread()) ==> socket.received == delivered + Unread()
      ensures c.Ch? ==> Remaining() == old(Remaining()) - 1
    {
      hide Remaining, Input;
      if gptr == egptr {
        c := Refill();
        if c.Eof? {
          return;
        }
      }
      var first := Bump();
      c := Ch(first);
    }

    /** underflow, as sbumpc sees it: characters move into the get area, and none appear or get lost. */
    method Refill() returns (c: IntType)
      requires Valid() && Unread() == []
      modifies `ec, `timerState, `gptr, `egptr, getBuffer, socket
      ensures Valid() && socket.sent == old(socket.sent)
      ensures c.Ch? <==> old(Receivable())
      ensures Input() == old(Input()) && (c.Ch? ==> Remaining() == old(Remaining()))
      ensures if c.Ch? then Unread() != [] && socket.received == old(socket.received) + Unread()
              else Unread() == [] && socket.received == old(socket.received)
      ensures c.Eof? ==> socket.incoming == old(socket.incoming)
    {
      hide Arriving;
      ArrivingStep(Status(), |socket.incoming|, GET_MAX);
      c := Underflow();
    }

    /** Takes a character out of the get area. */
    method Bump() returns (c: char)
      requires Valid() && Unread() != []
      modifies `gptr, `delivered
      ensures Valid() && [c] + Unread() == old(Unread()) && delivered == old(delivered) + [c]
      ensures [c] + Input() == old(Input()) && Remaining() == old(Remaining()) - 1
    {
      c := getBuffer[gptr];
      gptr := gptr + 1;
      delivered := delivered + [c];
      assert [c] + Unread() == old(Unread());
    }

    /** How many characters can be read before the first end of file. */
    ghost function Remaining(): nat
      requires Valid()
      reads this, socket, getBuffer
    {
      |Unread()| + Arriving(Status(), |socket.incoming|, GET_MAX)
    }
  }

  // ---- Runs of writes ------------------------------------------------------

  datatype WriteOp = PutChar(c: char) | Flush

  function Written(ops: seq<WriteOp>): seq<char> {
    if ops == [] then [] else
    Written(ops[..|ops| - 1]) + match ops[|ops| - 1]
      case PutChar(c) => [c]
      case Flush => []
  }

  /** How many characters an operation has to send when `held` are pending. */
  function FlushedBy(op: WriteOp, held: nat, unbuffered: bool): nat {
    if unbuffered then (if op.PutChar? then 1 else 0)
    else if op.Flush? || held >= BUFFER_SIZE then held
    else 0
  }

  function HeldAfter(op: WriteOp, held: nat, unbuffered: bool): nat {
    if unbuffered || op.Flush? then 0 else if held < BUFFER_SIZE then held + 1 else 1
  }

  function HeldAfterAll(ops: seq<WriteOp>, held: nat, unbuffered: bool): nat {
    if ops == [] then held
    else HeldAfter(ops[|ops| - 1], HeldAfterAll(ops[..|ops| - 1], held, unbuffered), unbuffered)
  }

  /** What each operation of a run has to send: a full put area, a flushed one, or nothing. */
  function Messages(ops: seq<WriteOp>, held: nat, unbuffered: bool): (sizes: seq<nat>)
    ensures |sizes| == |ops|
  {
    if ops == [] then []
    else
      var front := ops[..|ops| - 1];
      Messages(front, held, unbuffered)
      + [FlushedBy(ops[|ops| - 1], HeldAfterAll(front, held, unbuffered), unbuffered)]
  }

  /** The messages and what stays pending are what was pending and what was written. */
  lemma {:induction false} MessagesAreWritten(ops: seq<WriteOp>, held: nat, unbuffered: bool)
    requires held <= if unbuffered then 0 else BUFFER_SIZE
    ensures HeldAfterAll(ops, held, unbuffered) <= if unbuffered then 0 else BUFFER_SIZE
    ensures Sum(Messages(ops, held, unbuffered)) + HeldAfterAll(ops, held, unbuffered) == held + |Written(ops)|
  {
    if ops != [] {
      var front := ops[..|ops| - 1];
      MessagesAreWritten(front, held, unbuffered);
      assert Messages(ops, held, unbuffered)[..|front|] == Messages(front, held, unbuffered);
    }
  }

  /** Where no transfer fails and the timer does not come due, no run of writes meets an error. */
  lemma UndisturbedRun(line: Line, ops: seq<WriteOp>, held: nat, unbuffered: bool)
    requires held <= if unbuffered then 0 else BUFFER_SIZE
    requires Undisturbed(line) && |line.schedule| >= held + |Written(ops)|
    ensures SendsEach(line, Messages(ops, held, unbuffered))
  {
    MessagesAreWritten(ops, held, unbuffered);
    UndisturbedSends(line, Messages(ops, held, unbuffered));
  }

  lemma {:induction false} MessagesFront(ops: seq<WriteOp>, k: nat, held: nat, unbuffered: bool)
    requires k <= |ops|
    ensures Messages(ops[..k], held, unbuffered) == Messages(ops, held, unbuffered)[..k]
  {
    if k == |ops| {
      assert ops[..k] == ops;
    } else {
      assert ops[..|ops| - 1][..k] == ops[..k];
      MessagesFront(ops[..|ops| - 1], k, held, unbuffered);
    }
  }

  lemma {:induction false} WrittenPrefix(ops: seq<WriteOp>, k: nat)
    requires k <= |ops|
    ensures Written(ops[..k]) <= Written(ops)
  {
    if k == |ops| {
      assert ops[..k] == ops;
    } else {
      assert ops[..|ops| - 1][..k] == ops[..k];
      WrittenPrefix(ops[..|ops| - 1], k);
    }
  }

  method WriteOne(sb: SocketStreambuf, op: WriteOp) returns (r: IntType)
    requires sb.Valid()
    modifies sb`ec, sb`timerState, sb`pptr, sb`epptr, sb.putBuffer, sb.socket
    ensures sb.Valid()
    ensures var n := FlushedBy(op, old(|sb.Pending()|), sb.unbuffered);
            (r.Ch? <==> Sends(old(sb.Status()), n)) && sb.Status() == Transfer(old(sb.Status()), n).after
    ensures r.Ch? ==> sb.socket.sent + sb.Pending() == old(sb.socket.sent + sb.Pending()) + Written([op])
    ensures r.Ch? ==> |sb.Pending()| == HeldAfter(op, old(|sb.Pending()|), sb.unbuffered)
    ensures r.Eof? ==> sb.socket.sent <= old(sb.socket.sent + sb.Pending())
  {
    assert [op][..0] == [];
    match op {
      case PutChar(c) => r := sb.Sputc(c);
      case Flush => r := sb.Sync();
    }
  }

  /**
   Any mix of sputc and sync over any schedule of partial sends. It goes
   without an error exactly when the line can carry each of the messages the
   run has to send; then sent + pending is everything written, and a final sync
   (or the unbuffered mode) leaves nothing pending. Up to and including the
   first error, what went out is a prefix of what was written.
   */
  method WriteAll(sb: SocketStreambuf, ops: seq<WriteOp>) returns (ok: bool)
    requires sb.Valid()
    modifies sb`ec, sb`timerState, sb`pptr, sb`epptr, sb.putBuffer, sb.socket
    ensures sb.Valid()
    ensures ok <==> SendsEach(old(sb.Status()), Messages(ops, old(|sb.Pending()|), sb.unbuffered))
    ensures ok ==> sb.socket.sent + sb.Pending() == old(sb.socket.sent + sb.Pending()) + Written(ops)
    ensures ok && ops != [] && (sb.unbuffered || ops[|ops| - 1].Flush?) ==>
      sb.socket.sent == old(sb.socket.sent + sb.Pending()) + Written(ops)
    ensures sb.socket.sent <= old(sb.socket.sent + sb.Pending()) + Written(ops)
  {
    hide Transfer, SendsEach, After, Messages, HeldAfterAll, HeldAfter, FlushedBy, Written;
    RunStart(sb.Status(), |sb.Pending()|, sb.unbuffered);
    ghost var start, line, held := sb.socket.sent + sb.Pending(), sb.Status(), |sb.Pending()|;
    ghost var sizes := Messages(ops, held, sb.unbuffered);
    var k := 0;
    assert ops[..0] == [];
    while k < |ops|
      invariant 0 <= k <= |ops| && sb.Valid()
      invariant sb.socket.sent + sb.Pending() == start + Written(ops[..k])
      invariant |sb.Pending()| == HeldAfterAll(ops[..k], held, sb.unbuffered)
      invariant SendsEach(line, sizes[..k]) && sb.Status() == After(line, sizes[..k])
    {
      NextMessage(line, ops, k, held, sb.unbuffered);
      WrittenPrefix(ops, k);
      ghost var before := sb.socket.sent + sb.Pending();
      var r := WriteOne(sb, ops[k]);
      if r.Eof? {
        assert sb.socket.sent <= before;
        return false;
      }
      k := k + 1;
    }
    assert ops[..k] == ops && sizes[..k] == sizes;
    if ops != [] && (sb.unbuffered || ops[|ops| - 1].Flush?) {
      NothingHeld(ops, held, sb.unbuffered);
    }
    ok := true;
  }

  lemma RunStart(line: Line, held: nat, unbuffered: bool)
    ensures Written([]) == [] && HeldAfterAll([], held, unbuffered) == held
    ensures SendsEach(line, []) && After(line, []) == line
  {
  }

  /** What the next operation of a run has to send, and what follows for the run. */
  lemma NextMessage(line: Line, ops: seq<WriteOp>, k: nat, held: nat, unbuffered: bool)
    requires k < |ops|
    ensures var sizes, before := Messages(ops, held, unbuffered), HeldAfterAll(ops[..k], held, unbuffered);
            var n := FlushedBy(ops[k], before, unbuffered);
            && HeldAfterAll(ops[..k + 1], held, unbuffered) == HeldAfter(ops[k], before, unbuffered)
            && Written(ops[..k + 1]) == Written(ops[..k]) + Written([ops[k]])
            && (SendsEach(line, sizes[..k + 1]) <==>
                SendsEach(line, sizes[..k]) && Sends(After(line, sizes[..k]), n))
            && After(line, sizes[..k + 1]) == Transfer(After(line, sizes[..k]), n).after
            && (SendsEach(line, sizes) ==> SendsEach(line, sizes[..k + 1]))
  {
    hide SendsEach, After, Transfer, FlushedBy;
    var sizes := Messages(ops, held, unbuffered);
    var n := FlushedBy(ops[k], HeldAfterAll(ops[..k], held, unbuffered), unbuffered);
    Unfold(ops, k, held, unbuffered);
    MessagesFront(ops, k, held, unbuffered);
    MessagesFront(ops, k + 1, held, unbuffered);
    hide *;
    assert sizes[..k + 1] == sizes[..k] + [n];
    SendsEachMore(line, sizes[..k], n);
    if SendsEach(line, sizes) {
      SendsEachFront(line, sizes, k + 1);
    }
  }

  /** A run one operation longer. */
  lemma Unfold(ops: seq<WriteOp>, k: nat, held: nat, unbuffered: bool)
    requires k < |ops|
    ensures var before := HeldAfterAll(ops[..k], held, unbuffered);
            && HeldAfterAll(ops[..k + 1], held, unbuffered) == HeldAfter(ops[k], before, unbuffered)
            && Written(ops[..k + 1]) == Written(ops[..k]) + Written([ops[k]])
            && Messages(ops[..k + 1], held, unbuffered)
               == Messages(ops[..k], held, unbuffered) + [FlushedBy(ops[k], before, unbuffered)]
  {
    hide FlushedBy, HeldAfter;
    var longer := ops[..k + 1];
    assert longer[..|longer| - 1] == ops[..k] && longer[|longer| - 1] == ops[k];
    assert [ops[k]][..0] == [];
    assert Written([ops[k]]) == [] + (if ops[k].PutChar? then [ops[k].c] else []);
  }

  /** A flush, or the unbuffered mode, leaves nothing. */
  lemma NothingHeld(ops: seq<WriteOp>, held: nat, unbuffered: bool)
    requires ops != [] && (unbuffered || ops[|ops| - 1].Flush?)
    ensures HeldAfterAll(ops, held, unbuffered) == 0
  {
  }

  // ---- After an error ------------------------------------------------------

  /**
   A failed sync leaves everything pending, so that a second one that succeeds
   repeats what the first had sent; nothing is repeated exactly when the line
   was not ready for a transfer to begin with.
   */
  method SyncAgain(sb: SocketStreambuf) returns (first: IntType, second: IntType)
    requires sb.Valid()
    modifies sb`ec, sb`timerState, sb`pptr, sb`epptr, sb.putBuffer, sb.socket
    ensures sb.Valid()
    ensures var pending, line := old(sb.Pending()), old(sb.Status());
            var o := Transfer(line, |pending|);
            && (first.Eof? <==> !Sends(line, |pending|))
            && (first.Eof? ==> (second.Ch? <==> Sends(o.after, |pending|)))
            && (first.Eof? && second.Ch? ==>
                && sb.Pending() == []
                && sb.socket.sent == old(sb.socket.sent) + pending[..o.moved] + pending
                && (sb.socket.sent == old(sb.socket.sent) + pending <==> !line.Ready()))
  {
    ghost var pending, line, sent := sb.Pending(), sb.Status(), sb.socket.sent;
    PartlySends(line, |pending|);
    first := sb.Sync();
    second := sb.Sync();
    if first.Eof? && second.Ch? {
      assert |sb.socket.sent| == |sent| + Transfer(line, |pending|).moved + |pending|;
    }
  }

  /** A new stream on which "ab" has been put. */
  method TwoPending(schedule: seq<Completion>) returns (sb: SocketStreambuf)
    ensures fresh(sb) && fresh(sb.socket) && fresh(sb.putBuffer)
    ensures sb.Valid() && sb.Pending() == "ab" && sb.socket.sent == [] && sb.Status() == Line(schedule, NoTimer)
  {
    var socket := new Socket(schedule, []);
    sb := new SocketStreambuf(socket);
    hide Transfer;
    TransferNone(sb.Status());
    var put := sb.Sputc('a');
    assert sb.socket.sent == [];
    assert sb.Pending() == sb.socket.sent + sb.Pending() == ['a'];
    put := sb.Sputc('b');
    assert sb.socket.sent == [];
    assert sb.Pending() == sb.socket.sent + sb.Pending() == ['a'] + ['b'];
  }

  /** One of two characters goes out, the next transfer fails, and flushing again sends the first once more. */
  method RepeatedPrefix() returns (sb: SocketStreambuf)
    ensures sb.Valid() && sb.socket.sent == "aab" && sb.Pending() == []
  {
    sb := TwoPending([Moved(1, false), Failed(Other(1), false), Moved(2, false)]);
    assert Transfer(sb.Status(), 2) == Outcome(1, Line([Moved(2, false)], NoTimer), Other(1)) by {
      assert Transfer(sb.Status().Next(), 1).moved == 0;
    }
    var first, second := SyncAgain(sb);
  }

  /** The same flush failing on the way into close: close succeeds, and the second character is gone. */
  method LostOnClose() returns (sb: SocketStreambuf, ok: bool)
    ensures ok && sb.Valid() && sb.socket.sent == "a" && sb.Pending() == []
  {
    sb := TwoPending([Moved(1, false), Failed(Other(1), false)]);
    assert Transfer(sb.Status(), 2).moved == 1 by {
      assert Transfer(sb.Status().Next(), 1).moved == 0;
    }
    ok := sb.Close(NoError);
  }

  /**
   With an expired timer a sync sends nothing and loses nothing; once the
   expiry is moved ahead, the stream sends again what the line can carry.
   */
  method SyncAfterRenewal(sb: SocketStreambuf, now: int, expiry: int) returns (first: IntType, second: IntType)
    requires sb.Valid() && sb.timerState == Expired && sb.Pending() != []
    modifies sb`ec, sb`timerState, sb`pptr, sb`epptr, sb.putBuffer, sb.socket
    ensures sb.Valid() && first.Eof?
    ensures second.Ch? <==> now < expiry && Sends(Line(old(sb.socket.schedule), Waiting), |old(sb.Pending())|)
    ensures second.Ch? ==> sb.socket.sent == old(sb.socket.sent + sb.Pending())
    ensures expiry <= now ==>
      sb.socket.sent == old(sb.socket.sent) && sb.Pending() == old(sb.Pending()) && sb.ec == OperationAborted
  {
    first := sb.Sync();
    sb.ExpiresAt(now, expiry);
    second := sb.Sync();
  }

  // ---- Runs of reads -------------------------------------------------------

  /**
   Reading up to n characters: as many come out as are unread or arrive before
   the first receive that delivers nothing, and they are what came in, in order.
   */
  method ReadUpTo(sb: SocketStreambuf, n: nat) returns (data: seq<char>)
    requires sb.Valid()
    modifies sb`ec, sb`timerState, sb`gptr, sb`egptr, sb`delivered, sb.getBuffer, sb.socket
    ensures sb.Valid() && |data| == Min(n, old(sb.Remaining()))
    ensures data + sb.Input() == old(sb.Input())
    ensures sb.delivered == old(sb.delivered) + data
  {
    data := [];
    ghost var all := sb.Input();
    while |data| < n
      invariant sb.Valid() && |data| <= n
      invariant data + sb.Input() == all
      invariant sb.delivered == old(sb.delivered) + data
      invariant |data| + sb.Remaining() == old(sb.Remaining())
      decreases n - |data|
    {
      NothingRemains(sb);
      var c := sb.Sbumpc();
      if c.Eof? {
        return;
      }
      Regroup(data, [c.c], sb.Input());
      data := data + [c.c];
    }
  }

  lemma NothingRemains(sb: SocketStreambuf)
    requires sb.Valid()
    ensures sb.Unread() == [] && !sb.Receivable() ==> sb.Remaining() == 0
  {
  }
}
