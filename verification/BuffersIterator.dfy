/** A random-access iterator over the bytes of a buffer sequence, with empty buffers anywhere. */
module BuffersIterators {
  import opened Words
  import opened Buffers

  /**
   The reference: where the byte numbered p stands, counting from view i; past
   the last byte, the end position (|views|, 0).
   */
  function Seek(views: seq<View>, i: nat, p: nat): (nat, nat)
    requires i <= |views|
    decreases |views| - i
  {
    if i == |views| then (|views|, 0)
    else if p < views[i].size then (i, p)
    else Seek(views, i + 1, p - views[i].size)
  }

  function At(views: seq<View>, p: nat): (nat, nat) {
    Seek(views, 0, p)
  }

  /** An offset inside a view is where Seek finds the byte it numbers: positions have one canonical form. */
  lemma {:induction false} SeekInside(views: seq<View>, j: nat, i: nat, o: nat)
    requires j <= i < |views| && o < views[i].size
    ensures Total(views[..j]) <= Total(views[..i])
    ensures Seek(views, j, Total(views[..i]) - Total(views[..j]) + o) == (i, o)
    decreases i - j
  {
    if j == i {
    } else {
      TotalNext(views, j);
      SeekInside(views, j + 1, i, o);
    }
  }

  /** Seek finds a byte for every number below the total, and the end at the total. */
  lemma {:induction false} SeekFinds(views: seq<View>, j: nat, p: nat)
    requires j <= |views| && Total(views[..j]) + p <= Total(views)
    ensures var (i, o) := Seek(views, j, p);
            && j <= i && CursorAt(views, i, o, Total(views[..j]) + p)
            && (i < |views| ==> o < views[i].size)
            && (i < |views| <==> Total(views[..j]) + p < Total(views))
    decreases |views| - j
  {
    if j == |views| {
      assert views[..j] == views;
    } else {
      TotalNext(views, j);
      TotalUpTo(views, j + 1);
      if p >= views[j].size {
        SeekFinds(views, j + 1, p - views[j].size);
      }
    }
  }

  lemma AtInside(views: seq<View>, i: nat, o: nat)
    requires i < |views| && o < views[i].size
    ensures At(views, Total(views[..i]) + o) == (i, o)
    ensures Total(views[..i]) + o < Total(views)
  {
    hide Total;
    TotalZero(views);
    SeekInside(views, 0, i, o);
    AddrAt(views, i, o);
  }

  lemma AtEnd(views: seq<View>)
    ensures At(views, Total(views)) == (|views|, 0)
  {
    hide Total;
    TotalZero(views);
    SeekFinds(views, 0, Total(views));
  }

  lemma AtFinds(views: seq<View>, p: nat)
    requires p <= Total(views)
    ensures var (i, o) := At(views, p);
            && CursorAt(views, i, o, p) && (i < |views| ==> o < views[i].size) && (i < |views| <==> p < Total(views))
  {
    hide Total;
    TotalZero(views);
    SeekFinds(views, 0, p);
  }

  lemma TotalZero(views: seq<View>)
    ensures Total(views[..0]) == 0
  {
  }

  /** Different positions are different places, so comparing positions compares iterators. */
  lemma AtInjective(views: seq<View>, p: nat, q: nat)
    requires p <= Total(views) && q <= Total(views)
    ensures At(views, p) == At(views, q) <==> p == q
  {
    hide Total, Seek, At;
    AtFinds(views, p);
    AtFinds(views, q);
  }

  class BuffersIterator {
    const buffers: seq<View>
    var current: nat
    var currentBuffer: View
    var offset: nat
    var position: nat

    /** `position` counts the bytes before the iterator, and the cursor is in canonical form. */
    ghost predicate Valid()
      reads this
    {
      && position <= Total(buffers)
      && (current, offset) == At(buffers, position)
      && (current < |buffers| ==> currentBuffer == buffers[current])
    }

    constructor Begin(views: seq<View>)
      ensures Valid() && buffers == views && position == 0
    {
      buffers := views;
      currentBuffer := View(0, 0);
      offset := 0;
      current := 0;
      position := 0;
      new;
      hide Total, Seek, At;
      TotalZero(views);
      while current != |buffers|
        invariant current <= |buffers| && Total(buffers[..current]) == 0 && position == 0 && offset == 0
        decreases |buffers| - current
      {
        currentBuffer := buffers[current];
        if currentBuffer.size > 0 {
          break;
        }
        TotalNext(buffers, current);
        current := current + 1;
      }
      Lands(0);
    }

    constructor End(views: seq<View>)
      ensures Valid() && buffers == views && position == Total(views)
    {
      buffers := views;
      currentBuffer := View(0, 0);
      offset := 0;
      current := 0;
      position := 0;
      new;
      hide Total, Seek, At;
      TotalZero(views);
      while current != |buffers|
        invariant current <= |buffers| && position == Total(buffers[..current]) && offset == 0
        decreases |buffers| - current
      {
        TotalNext(buffers, current);
        position := position + buffers[current].size;
        current := current + 1;
      }
      assert buffers[..current] == buffers;
      Lands(position);
    }

    constructor Copy(other: BuffersIterator)
      requires other.Valid()
      ensures Valid() && buffers == other.buffers && position == other.position
    {
      buffers := other.buffers;
      current := other.current;
      currentBuffer := other.currentBuffer;
      offset := other.offset;
      position := other.position;
    }

    /** A cursor on a byte, or at the end, is where At puts the position it counts. */
    lemma Lands(p: nat)
      requires current <= |buffers| && p == Total(buffers[..current]) + offset
      requires if current < |buffers| then offset < buffers[current].size else offset == 0
      ensures p <= Total(buffers) && (current, offset) == At(buffers, p)
    {
      hide Total, Seek, At;
      if current < |buffers| {
        AtInside(buffers, current, offset);
      } else {
        assert buffers[..current] == buffers;
        AtEnd(buffers);
      }
    }

    method Dereference(mem: array<Byte>) returns (b: Byte)
      requires Valid() && position < Total(buffers) && Inside(buffers, mem.Length)
      ensures position < |Addrs(buffers)| && Addrs(buffers)[position] < mem.Length
      ensures b == mem[Addrs(buffers)[position]]
    {
      hide Total, Addrs, Seek, At;
      AtFinds(buffers, position);
      AddrAt(buffers, current, offset);
      b := mem[currentBuffer.start + offset];
    }

    method Increment()
      requires Valid() && position < Total(buffers)
      modifies this
      ensures Valid() && position == old(position) + 1
    {
      hide Total, Seek, At;
      AtFinds(buffers, position);
      position := position + 1;
      offset := offset + 1;
      if offset != currentBuffer.size {
        Lands(position);
        return;
      }
      TotalNext(buffers, current);
      current := current + 1;
      offset := 0;
      while current != |buffers|
        invariant current <= |buffers| && offset == 0 && position == old(position) + 1
        invariant Total(buffers[..current]) == position
        decreases |buffers| - current
      {
        currentBuffer := buffers[current];
        if currentBuffer.size > 0 {
          Lands(position);
          return;
        }
        TotalNext(buffers, current);
        current := current + 1;
      }
      Lands(position);
    }

    method Decrement()
      requires Valid() && position > 0
      modifies this
      ensures Valid() && position == old(position) - 1
    {
      hide Total, Seek, At;
      AtFinds(buffers, position);
      position := position - 1;
      if offset != 0 {
        offset := offset - 1;
        Lands(position);
        return;
      }
      var iter := current;
      while iter != 0
        invariant 0 <= iter <= |buffers| && Total(buffers[..iter]) == position + 1
        invariant position == old(position) - 1
        decreases iter
      {
        iter := iter - 1;
        TotalNext(buffers, iter);
        var buffer := buffers[iter];
        if buffer.size > 0 {
          current := iter;
          currentBuffer := buffer;
          offset := buffer.size - 1;
          Lands(position);
          return;
        }
      }
      TotalZero(buffers);
    }

    method Advance(n0: int)
      requires Valid() && 0 <= position + n0 <= Total(buffers)
      modifies this
      ensures Valid() && position == old(position) + n0
    {
      hide Total, Seek, At;
      var n := n0;
      AtFinds(buffers, position);
      if n > 0 {
        while true
          invariant n >= 0 && position + n == old(position) + n0
          invariant current < |buffers| && currentBuffer == buffers[current] && offset <= currentBuffer.size
          invariant position == Total(buffers[..current]) + offset
          decreases |buffers| - current
        {
          var balance := currentBuffer.size - offset;
          if balance > n {
            position := position + n;
            offset := offset + n;
            Lands(position);
            return;
          }
          n := n - balance;
          position := position + balance;
          TotalNext(buffers, current);
          current := current + 1;
          if current == |buffers| {
            assert buffers[..current] == buffers;
            assert n == 0;
            currentBuffer := View(0, 0);
            offset := 0;
            Lands(position);
            return;
          }
          currentBuffer := buffers[current];
          offset := 0;
        }
      } else if n < 0 {
        var absN := -n;
        while true
          invariant absN > 0 && position - absN == old(position) + n0
          invariant current <= |buffers| && (current < |buffers| ==> currentBuffer == buffers[current])
          invariant if current < |buffers| then offset <= currentBuffer.size else offset == 0
          invariant position == Total(buffers[..current]) + offset
          decreases current
        {
          if offset >= absN {
            position := position - absN;
            offset := offset - absN;
            Lands(position);
            return;
          }
          absN := absN - offset;
          position := position - offset;
          if current == 0 {
            TotalZero(buffers);
            assert false;
          }
          ghost var from := current;
          var iter := current;
          while iter != 0
            invariant 0 <= iter <= from == current && Total(buffers[..iter]) == position
            invariant absN > 0 && position - absN == old(position) + n0
            decreases iter
          {
            iter := iter - 1;
            TotalNext(buffers, iter);
            var buffer := buffers[iter];
            if buffer.size > 0 {
              current := iter;
              currentBuffer := buffer;
              offset := buffer.size;
              break;
            }
          }
          if current == from {
            TotalZero(buffers);
          }
        }
      }
    }

    /** operator[]: the byte `difference` places away. */
    method Index(mem: array<Byte>, difference: int) returns (b: Byte)
      requires Valid() && 0 <= position + difference < Total(buffers) && Inside(buffers, mem.Length)
      ensures position + difference < |Addrs(buffers)| && Addrs(buffers)[position + difference] < mem.Length
      ensures b == mem[Addrs(buffers)[position + difference]]
    {
      var tmp := new BuffersIterator.Copy(this);
      tmp.Advance(difference);
      b := tmp.Dereference(mem);
    }

    /** operator+ and, with a negative difference, operator-: the iterator itself stays where it is. */
    method Plus(difference: int) returns (tmp: BuffersIterator)
      requires Valid() && 0 <= position + difference <= Total(buffers)
      ensures fresh(tmp) && tmp.Valid() && tmp.buffers == buffers && tmp.position == position + difference
      ensures DistanceTo(tmp) == difference && tmp.DistanceTo(this) == -difference
    {
      tmp := new BuffersIterator.Copy(this);
      tmp.Advance(difference);
    }

    /** distance_to, and with the iterators exchanged the difference operator. */
    function DistanceTo(other: BuffersIterator): int
      reads this, other
    {
      other.position - position
    }

    predicate Equal(other: BuffersIterator)
      reads this, other
    {
      position == other.position
    }

    /** operator< */
    predicate Less(other: BuffersIterator)
      reads this, other
    {
      DistanceTo(other) > 0
    }

    /** Equality of positions is equality of places: same view, same offset, same byte. */
    lemma EqualIsSamePlace(other: BuffersIterator)
      requires Valid() && other.Valid() && buffers == other.buffers
      ensures Equal(other) <==> (current, offset) == (other.current, other.offset)
      ensures Equal(other) && position < Total(buffers) ==> currentBuffer == other.currentBuffer
    {
      hide Total, Seek, At;
      AtInjective(buffers, position, other.position);
      AtFinds(buffers, position);
    }

    /** The distance is the number of bytes between the two places, empty views and all. */
    lemma DistanceIsBetween(other: BuffersIterator)
      requires Valid() && other.Valid() && buffers == other.buffers
      ensures current <= |buffers| && other.current <= |buffers|
      ensures DistanceTo(other)
           == Total(buffers[..other.current]) + other.offset - (Total(buffers[..current]) + offset)
    {
      hide Total, Seek, At;
      AtFinds(buffers, position);
      AtFinds(buffers, other.position);
    }

    /** The order is the order of places: views first, offsets within a view. */
    lemma LessIsBefore(other: BuffersIterator)
      requires Valid() && other.Valid() && buffers == other.buffers
      ensures Less(other) <==> current < other.current || (current == other.current && offset < other.offset)
    {
      hide Total, Seek, At;
      AtFinds(buffers, position);
      AtFinds(buffers, other.position);
      if current < other.current {
        Before(other);
      } else if other.current < current {
        other.Before(this);
      }
    }

    lemma Before(other: BuffersIterator)
      requires Valid() && other.Valid() && buffers == other.buffers && current < other.current
      ensures position < other.position
    {
      hide Total, Seek, At;
      AtFinds(buffers, position);
      AtFinds(buffers, other.position);
      TotalNext(buffers, current);
      TotalUpTo(buffers[..other.current], current + 1);
      assert buffers[..other.current][..current + 1] == buffers[..current + 1];
    }

    /** Advance(n) is n increments or -n decrements: the same place. */
    method ByOnes(n: int)
      requires Valid() && 0 <= position + n <= Total(buffers)
      modifies this
      ensures Valid() && position == old(position) + n
    {
      var k := n;
      while k > 0
        invariant Valid() && 0 <= position + k <= Total(buffers)
        invariant position + k == old(position) + n && (n >= 0 ==> k >= 0) && (n < 0 ==> k == n)
      {
        Increment();
        k := k - 1;
      }
      while k < 0
        invariant Valid() && position + k >= 0 && k <= 0
        invariant position + k == old(position) + n
        decreases -k
      {
        Decrement();
        k := k + 1;
      }
    }
  }

  datatype Move = Next | Previous | Jump(n: int)

  function Delta(m: Move): int {
    match m
    case Next => 1
    case Previous => -1
    case Jump(n) => n
  }

  /** Where a run of moves leads, if none of them leaves the sequence. */
  function Destination(p: int, moves: seq<Move>): int {
    if moves == [] then p else Destination(p, moves[..|moves| - 1]) + Delta(moves[|moves| - 1])
  }

  predicate Legal(p: int, moves: seq<Move>, total: nat) {
    forall k :: 0 <= k <= |moves| ==> 0 <= Destination(p, moves[..k]) <= total
  }

  /** A run is legal exactly when it starts inside the sequence and each of its moves stays there. */
  lemma LegalExact(p: int, moves: seq<Move>, total: nat)
    ensures Legal(p, moves, total) <==>
      if moves == [] then 0 <= p <= total
      else Legal(p, moves[..|moves| - 1], total) && 0 <= Destination(p, moves) <= total
  {
    assert moves[..|moves|] == moves;
    if moves != [] {
      hide Destination;
      var front := moves[..|moves| - 1];
      assert forall k {:trigger moves[..k]} :: 0 <= k < |moves| ==> front[..k] == moves[..k];
      if Legal(p, moves, total) {
        forall k | 0 <= k <= |front|
          ensures 0 <= Destination(p, front[..k]) <= total
        {
          assert 0 <= Destination(p, moves[..k]) <= total;
        }
        assert 0 <= Destination(p, moves[..|moves|]) <= total;
      }
      if Legal(p, front, total) && 0 <= Destination(p, moves) <= total {
        forall k | 0 <= k <= |moves|
          ensures 0 <= Destination(p, moves[..k]) <= total
        {
          if k < |moves| {
            assert 0 <= Destination(p, front[..k]) <= total;
          }
        }
      }
    } else {
      assert Destination(p, moves) == p;
      assert Legal(p, moves, total) ==> 0 <= Destination(p, moves[..0]) <= total;
      assert moves[..0] == moves;
    }
  }

  /** Every run of legal moves ends in canonical form at the position the moves add up to. */
  method Walk(it: BuffersIterator, moves: seq<Move>)
    requires it.Valid() && Legal(it.position, moves, Total(it.buffers))
    modifies it
    ensures it.Valid() && it.position == Destination(old(it.position), moves)
  {
    hide Total, At;
    ghost var start := it.position;
    var k := 0;
    assert moves[..0] == [];
    while k < |moves|
      invariant 0 <= k <= |moves|
      invariant it.Valid() && it.position == Destination(start, moves[..k])
    {
      assert moves[..k + 1][..k] == moves[..k];
      assert 0 <= Destination(start, moves[..k + 1]) <= Total(it.buffers);
      match moves[k] {
        case Next => it.Increment();
        case Previous => it.Decrement();
        case Jump(n) => it.Advance(n);
      }
      k := k + 1;
    }
    assert moves[..k] == moves;
  }

  /** Jumping by n and back by -n, or splitting a jump in two, is no move at all. */
  lemma {:induction false} DestinationAppend(p: int, m1: seq<Move>, m2: seq<Move>)
    ensures Destination(p, m1 + m2) == Destination(Destination(p, m1), m2)
    decreases |m2|
  {
    if m2 == [] {
      assert m1 + m2 == m1;
    } else {
      var k := |m2| - 1;
      assert (m1 + m2)[..|m1 + m2| - 1] == m1 + m2[..k];
      DestinationAppend(p, m1, m2[..k]);
    }
  }
}
