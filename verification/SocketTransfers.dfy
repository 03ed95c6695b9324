/**
 What a socket stream buffer's transfers do, on values: the peer is a schedule
 of completions, and everything a send or a receive does follows from the
 schedule and the timer.
 */
module SocketTransfers {
  import opened Words

  datatype ErrorCode = NoError | OperationAborted | Other(code: int)

  type Fault = e: ErrorCode | e != NoError witness Other(0)

  datatype TimerState = NoTimer | Waiting | Expired

  /**
   How one asynchronous transfer ends: with some of the bytes moved, at least
   one, or with an error. `due` says whether a pending timer was found due
   while the transfer was waited for.
   */
  datatype Completion = Moved(n: nat, due: bool) | Failed(error: Fault, due: bool)

  /** What decides how the next transfers go. After the last completion the peer is gone. */
  datatype Line = Line(schedule: seq<Completion>, timer: TimerState) {

    /** The next transfer moves something. */
    predicate Ready() {
      timer != Expired && schedule != [] && schedule[0].Moved?
    }

    /** Why the next transfer moves nothing. */
    function Obstacle(): ErrorCode {
      if timer == Expired then OperationAborted
      else if schedule == [] then Other(0)
      else if schedule[0].Failed? then schedule[0].error
      else NoError
    }

    /** The line after one more transfer was waited for. */
    function Next(): Line {
      if schedule == [] then this
      else Line(schedule[1..], if timer.Waiting? && schedule[0].due then Expired else timer)
    }
  }

  /** How much went out, what the line is then, and why it stopped. */
  datatype Outcome = Outcome(moved: nat, after: Line, stop: ErrorCode)

  /** A completion's count, within what was asked for. */
  function Count(n: nat, limit: nat): (m: nat)
    requires limit > 0
    ensures 1 <= m <= limit
  {
    Max(1, Min(n, limit))
  }

  /** Sending n bytes, transfer by transfer, up to the first that cannot be made or fails. */
  function Transfer(line: Line, n: nat): (o: Outcome)
    ensures o.moved <= n && (o.moved == n <==> o.stop == NoError)
    decreases n
  {
    if n == 0 then Outcome(0, line, NoError)
    else if line.timer.Expired? then Outcome(0, line, OperationAborted)
    else if !line.Ready() then Outcome(0, line.Next(), line.Obstacle())
    else
      var m := Count(line.schedule[0].n, n);
      var rest := Transfer(line.Next(), n - m);
      Outcome(m + rest.moved, rest.after, rest.stop)
  }

  lemma TransferStep(line: Line, n: nat)
    requires n > 0
    ensures Transfer(line, n) ==
      if line.timer.Expired? then Outcome(0, line, OperationAborted)
      else if !line.Ready() then Outcome(0, line.Next(), line.Obstacle())
      else
        var m := Count(line.schedule[0].n, n);
        var rest := Transfer(line.Next(), n - m);
        Outcome(m + rest.moved, rest.after, rest.stop)
  {
  }

  lemma TransferNone(line: Line)
    ensures Transfer(line, 0) == Outcome(0, line, NoError)
  {
  }

  predicate Sends(line: Line, n: nat) {
    Transfer(line, n).moved == n
  }

  /** How much these completions can move. */
  function Capacity(schedule: seq<Completion>): nat {
    if schedule == [] then 0
    else (if schedule[0].Moved? then Max(1, schedule[0].n) else 0) + Capacity(schedule[1..])
  }

  /** The first k completions move n bytes, and the timer is not due before the last of them. */
  predicate Serves(line: Line, k: nat, n: nat)
    requires k <= |line.schedule|
  {
    && !line.timer.Expired? && n <= Capacity(line.schedule[..k])
    && (forall i :: 0 <= i < k ==> line.schedule[i].Moved?)
    && (line.timer.Waiting? ==> forall i :: 0 <= i < k - 1 ==> !line.schedule[i].due)
  }

  /** Everything goes out exactly when some successful completions at the front of the schedule can carry it. */
  lemma SendsExact(line: Line, n: nat)
    ensures Sends(line, n) <==> n == 0 || exists k: nat :: k <= |line.schedule| && Serves(line, k, n)
  {
    if Sends(line, n) {
      var k := SendsServed(line, n);
    }
    if k: nat :| k <= |line.schedule| && Serves(line, k, n) {
      ServedSends(line, k, n);
    }
  }

  lemma {:induction false} SendsServed(line: Line, n: nat) returns (k: nat)
    requires Sends(line, n)
    ensures k <= |line.schedule| && (n == 0 || Serves(line, k, n))
    decreases n
  {
    k := 0;
    if n > 0 {
      var c := line.schedule[0];
      var m := Count(c.n, n);
      var rest := SendsServed(line.Next(), n - m);
      k := if n == m then 1 else rest + 1;
      assert line.schedule[..k][1..] == line.schedule[1..][..k - 1];
      if n > m {
        assert forall i :: 1 <= i < k ==> line.schedule[i] == line.Next().schedule[i - 1];
      }
    }
  }

  lemma {:induction false} ServedSends(line: Line, k: nat, n: nat)
    requires k <= |line.schedule| && Serves(line, k, n)
    ensures Sends(line, n)
    decreases n
  {
    if n > 0 && k > 0 {
      var c := line.schedule[0];
      var m := Count(c.n, n);
      assert line.schedule[..k][1..] == line.schedule[1..][..k - 1];
      assert Capacity(line.schedule[..k]) == Max(1, c.n) + Capacity(line.schedule[1..][..k - 1]);
      if m < n {
        assert k > 1;
        assert forall i :: 0 <= i < k - 1 ==> line.Next().schedule[i] == line.schedule[i + 1];
        ServedSends(line.Next(), k - 1, n - m);
      }
    }
  }

  /** Something goes out, and not everything, exactly when the line is ready and cannot carry all of it. */
  lemma PartlySends(line: Line, n: nat)
    ensures 0 < Transfer(line, n).moved < n <==> n > 0 && line.Ready() && !Sends(line, n)
  {
  }

  // ---- Several sends -------------------------------------------------------

  /** The line after sending messages of these sizes. */
  function After(line: Line, sizes: seq<nat>): Line {
    if sizes == [] then line
    else Transfer(After(line, sizes[..|sizes| - 1]), sizes[|sizes| - 1]).after
  }

  /** Each of the messages goes out whole. */
  predicate SendsEach(line: Line, sizes: seq<nat>) {
    forall i :: 0 <= i < |sizes| ==> Sends(After(line, sizes[..i]), sizes[i])
  }

  function Sum(sizes: seq<nat>): nat {
    if sizes == [] then 0 else Sum(sizes[..|sizes| - 1]) + sizes[|sizes| - 1]
  }

  lemma SendsEachMore(line: Line, sizes: seq<nat>, n: nat)
    ensures SendsEach(line, sizes + [n]) <==> SendsEach(line, sizes) && Sends(After(line, sizes), n)
    ensures After(line, sizes + [n]) == Transfer(After(line, sizes), n).after
  {
    var more := sizes + [n];
    assert more[..|sizes|] == sizes;
    assert forall i :: 0 <= i < |sizes| ==> more[..i] == sizes[..i] && more[i] == sizes[i];
    if SendsEach(line, more) {
      assert Sends(After(line, more[..|sizes|]), more[|sizes|]);
      forall i | 0 <= i < |sizes|
        ensures Sends(After(line, sizes[..i]), sizes[i])
      {
        assert Sends(After(line, more[..i]), more[i]);
      }
    }
  }

  lemma {:induction false} SendsEachFront(line: Line, sizes: seq<nat>, k: nat)
    requires k <= |sizes| && SendsEach(line, sizes)
    ensures SendsEach(line, sizes[..k])
  {
    forall i | 0 <= i < k
      ensures Sends(After(line, sizes[..k][..i]), sizes[..k][i])
    {
      assert sizes[..k][..i] == sizes[..i];
    }
  }

  /** No transfer fails, and a timer that is pending does not come due. */
  predicate Undisturbed(line: Line) {
    && !line.timer.Expired?
    && forall c :: c in line.schedule ==> c.Moved? && (line.timer.Waiting? ==> !c.due)
  }

  /** An undisturbed line with a completion for every byte carries any messages, of whatever sizes. */
  lemma {:induction false} UndisturbedSends(line: Line, sizes: seq<nat>)
    requires Undisturbed(line) && |line.schedule| >= Sum(sizes)
    ensures SendsEach(line, sizes)
    ensures Undisturbed(After(line, sizes)) && |After(line, sizes).schedule| >= |line.schedule| - Sum(sizes)
  {
    if sizes != [] {
      var front, n := sizes[..|sizes| - 1], sizes[|sizes| - 1];
      UndisturbedSends(line, front);
      UndisturbedTransfer(After(line, front), n);
      assert sizes == front + [n];
      SendsEachMore(line, front, n);
    }
  }

  lemma {:induction false} UndisturbedTransfer(line: Line, n: nat)
    requires Undisturbed(line) && |line.schedule| >= n
    ensures var o := Transfer(line, n);
            o.moved == n && Undisturbed(o.after) && |o.after.schedule| >= |line.schedule| - n
    decreases n
  {
    if n > 0 {
      assert line.schedule[0] in line.schedule;
      UndisturbedTransfer(line.Next(), n - Count(line.schedule[0].n, n));
    }
  }

  // ---- Receives ------------------------------------------------------------

  /** How many of the incoming bytes receives of at most `limit` deliver, up to the first that does not. */
  function Arriving(line: Line, incoming: nat, limit: nat): (m: nat)
    requires limit > 0
    ensures m <= incoming
    decreases incoming
  {
    if incoming == 0 || !line.Ready() then 0
    else
      var m := Count(line.schedule[0].n, Min(limit, incoming));
      m + Arriving(line.Next(), incoming - m, limit)
  }

  lemma ArrivingStep(line: Line, incoming: nat, limit: nat)
    requires limit > 0
    ensures Arriving(line, incoming, limit) ==
      if incoming == 0 || !line.Ready() then 0
      else
        var m := Count(line.schedule[0].n, Min(limit, incoming));
        m + Arriving(line.Next(), incoming - m, limit)
  {
  }

  /** An undisturbed line with a completion for every byte brings in all of them. */
  lemma {:induction false} UndisturbedArrives(line: Line, incoming: nat, limit: nat)
    requires limit > 0 && Undisturbed(line) && |line.schedule| >= incoming
    ensures Arriving(line, incoming, limit) == incoming
    decreases incoming
  {
    if incoming > 0 {
      assert line.schedule[0] in line.schedule;
      UndisturbedArrives(line.Next(), incoming - Count(line.schedule[0].n, Min(limit, incoming)), limit);
    }
  }
}
