/**
 Scatter/gather copying. Memory is one array of bytes; a buffer is a view
 (start address, size) into it, and a buffer sequence names the addresses of
 its views one after another.
 */
module Buffers {
  import opened Words

  /** mutable_buffer and const_buffer; the null pointer is address 0. */
  datatype View = View(start: nat, size: nat)

  /** operator+ */
  function Plus(b: View, start: nat): View {
    if start > b.size then View(0, 0) else View(b.start + start, b.size - start)
  }

  /** buffer(b, max_size_in_bytes) */
  function Limited(b: View, maxSize: nat): View {
    View(b.start, if b.size < maxSize then b.size else maxSize)
  }

  function Range(b: View): (addrs: seq<nat>)
    ensures |addrs| == b.size
  {
    seq(b.size, i requires 0 <= i < b.size => b.start + i)
  }

  /** An offset buffer is the rest of the buffer, empty when the offset is beyond it. */
  lemma PlusDrops(b: View, start: nat)
    ensures Range(Plus(b, start)) == if start <= b.size then Range(b)[start..] else []
  {
  }

  /** A limited buffer is the front of the buffer, whole when the limit is beyond it. */
  lemma LimitedTakes(b: View, maxSize: nat)
    ensures Range(Limited(b, maxSize)) == Range(b)[..Min(b.size, maxSize)]
  {
  }

  /** Every address of the sequence, in reading order. */
  function Addrs(views: seq<View>): (addrs: seq<nat>)
    ensures |addrs| == Total(views)
  {
    if views == [] then [] else Addrs(views[..|views| - 1]) + Range(views[|views| - 1])
  }

  function Total(views: seq<View>): nat {
    if views == [] then 0 else Total(views[..|views| - 1]) + views[|views| - 1].size
  }

  predicate Inside(views: seq<View>, length: nat) {
    forall i :: 0 <= i < |views| ==> views[i].start + views[i].size <= length
  }

  predicate Distinct(addrs: seq<nat>) {
    forall i, j :: 0 <= i < j < |addrs| ==> addrs[i] != addrs[j]
  }

  predicate Apart(to: seq<nat>, from: seq<nat>) {
    forall i, j :: 0 <= i < |to| && 0 <= j < |from| ==> to[i] != from[j]
  }

  function Gather(mem: seq<Byte>, addrs: seq<nat>): (bytes: seq<Byte>)
    requires forall i :: 0 <= i < |addrs| ==> addrs[i] < |mem|
    ensures |bytes| == |addrs|
  {
    seq(|addrs|, i requires 0 <= i < |addrs| => mem[addrs[i]])
  }

  /** `after` is `before` with the first n bytes named by `from` written where `to` says, and nothing else. */
  ghost predicate IsCopy(before: seq<Byte>, after: seq<Byte>, to: seq<nat>, from: seq<nat>, n: nat) {
    && |after| == |before| && n <= |to| && n <= |from|
    && (forall k :: 0 <= k < n ==> to[k] < |before| && from[k] < |before| && after[to[k]] == before[from[k]])
    && (forall a :: 0 <= a < |before| && a !in to[..n] ==> after[a] == before[a])
  }

  predicate Below(addrs: seq<nat>, length: nat) {
    forall i :: 0 <= i < |addrs| ==> addrs[i] < length
  }

  /** Memory after n bytes have been copied one by one, each read after the ones before it were written. */
  function Copied(mem: seq<Byte>, to: seq<nat>, from: seq<nat>, n: nat): (after: seq<Byte>)
    requires n <= |to| && n <= |from| && Below(to, |mem|) && Below(from, |mem|)
    ensures |after| == |mem|
  {
    if n == 0 then mem
    else
      var mid := Copied(mem, to, from, n - 1);
      mid[to[n - 1] := mid[from[n - 1]]]
  }

  /** `after` is what copying byte by byte leaves, whatever the addresses have in common. */
  ghost predicate CopiedInOrder(before: seq<Byte>, after: seq<Byte>, to: seq<nat>, from: seq<nat>, n: nat) {
    && n <= |to| && n <= |from| && Below(to, |before|) && Below(from, |before|)
    && after == Copied(before, to, from, n)
  }

  /** Where no target byte is named twice or is also a source, the order does not show. */
  lemma {:induction false} InOrderIsCopy(before: seq<Byte>, to: seq<nat>, from: seq<nat>, n: nat)
    requires n <= |to| && n <= |from| && Below(to, |before|) && Below(from, |before|)
    requires Distinct(to) && Apart(to, from)
    ensures IsCopy(before, Copied(before, to, from, n), to, from, n)
  {
    hide IsCopy, Distinct, Apart, Below;
    if n == 0 {
      NothingCopied(before, to, from);
    } else {
      InOrderIsCopy(before, to, from, n - 1);
      assert to[n - 1] < |before| && from[n - 1] < |before| by { BelowAt(to, from, |before|, n - 1); }
      CopyGrows(before, Copied(before, to, from, n - 1), to, from, n - 1);
    }
  }

  lemma NothingCopied(mem: seq<Byte>, to: seq<nat>, from: seq<nat>)
    ensures IsCopy(mem, mem, to, from, 0)
  {
  }

  lemma BelowAt(to: seq<nat>, from: seq<nat>, length: nat, k: nat)
    requires k < |to| && k < |from| && Below(to, length) && Below(from, length)
    ensures to[k] < length && from[k] < length
  {
  }

  lemma CopyGrows(before: seq<Byte>, mid: seq<Byte>, to: seq<nat>, from: seq<nat>, n: nat)
    requires n < |to| && n < |from| && IsCopy(before, mid, to, from, n)
    requires to[n] < |before| && from[n] < |before| && Distinct(to) && Apart(to, from)
    ensures IsCopy(before, mid[to[n] := mid[from[n]]], to, from, n + 1)
  {
    assert to[..n + 1] == to[..n] + [to[n]];
    assert from[n] !in to[..n];
  }

  /** The final memory of a copy is fully determined, whichever loop made it. */
  lemma CopyDetermined(before: seq<Byte>, after1: seq<Byte>, after2: seq<Byte>, to: seq<nat>, from: seq<nat>, n: nat)
    requires IsCopy(before, after1, to, from, n) && IsCopy(before, after2, to, from, n)
    ensures after1 == after2
  {
  }

  /** Read back, the targets hold the first n source bytes, then their own old bytes; the sources are intact. */
  lemma CopyReadsBack(before: seq<Byte>, after: seq<Byte>, to: seq<nat>, from: seq<nat>, n: nat)
    requires IsCopy(before, after, to, from, n) && Distinct(to) && Apart(to, from)
    requires forall i :: 0 <= i < |to| ==> to[i] < |before|
    requires forall i :: 0 <= i < |from| ==> from[i] < |before|
    ensures Gather(after, to) == Gather(before, from)[..n] + Gather(before, to)[n..]
    ensures Gather(after, from) == Gather(before, from)
  {
  }

  lemma {:induction false} TotalUpTo(views: seq<View>, i: nat)
    requires i <= |views|
    ensures Total(views[..i]) <= Total(views)
    ensures Addrs(views[..i]) <= Addrs(views)
    decreases |views| - i
  {
    if i == |views| {
      assert views[..i] == views;
    } else {
      TotalNext(views, i);
      TotalUpTo(views, i + 1);
    }
  }

  lemma TotalNext(views: seq<View>, i: nat)
    requires i < |views|
    ensures Total(views[..i + 1]) == Total(views[..i]) + views[i].size
    ensures Addrs(views[..i + 1]) == Addrs(views[..i]) + Range(views[i])
  {
    assert views[..i + 1][..i] == views[..i];
  }

  /** Byte j of view i stands at index Total(views[..i]) + j of the flattened addresses. */
  lemma AddrAt(views: seq<View>, i: nat, j: nat)
    requires i < |views| && j < views[i].size
    ensures Total(views[..i]) + j < Total(views)
    ensures Addrs(views)[Total(views[..i]) + j] == views[i].start + j
  {
    TotalNext(views, i);
    TotalUpTo(views, i + 1);
    assert Addrs(views)[Total(views[..i]) + j] == Addrs(views[..i + 1])[Total(views[..i]) + j];
  }

  lemma {:induction false} AddrsInside(views: seq<View>, length: nat)
    requires Inside(views, length)
    ensures Below(Addrs(views), length)
  {
    if views != [] {
      AddrsInside(views[..|views| - 1], length);
    }
  }

  /** Two views share no byte. */
  predicate Disjoint(v: View, w: View) {
    v.size == 0 || w.size == 0 || v.start + v.size <= w.start || w.start + w.size <= v.start
  }

  lemma DisjointRanges(v: View, w: View)
    ensures Disjoint(v, w) <==> Apart(Range(v), Range(w))
  {
    if !Disjoint(v, w) {
      if v.start <= w.start {
        assert Range(v)[w.start - v.start] == Range(w)[0];
      } else {
        assert Range(w)[v.start - w.start] == Range(v)[0];
      }
    }
  }

  /** The addresses of two sequences have nothing in common exactly when no two of their views overlap. */
  lemma ApartExact(to: seq<View>, from: seq<View>)
    ensures Apart(Addrs(to), Addrs(from)) <==>
      forall i, j :: 0 <= i < |to| && 0 <= j < |from| ==> Disjoint(to[i], from[j])
  {
    hide Addrs, Total, Disjoint;
    if Apart(Addrs(to), Addrs(from)) {
      forall i, j | 0 <= i < |to| && 0 <= j < |from|
        ensures Disjoint(to[i], from[j])
      {
        forall k, l | 0 <= k < to[i].size && 0 <= l < from[j].size
          ensures Range(to[i])[k] != Range(from[j])[l]
        {
          AddrAt(to, i, k);
          AddrAt(from, j, l);
        }
        DisjointRanges(to[i], from[j]);
      }
    }
    if forall i, j :: 0 <= i < |to| && 0 <= j < |from| ==> Disjoint(to[i], from[j]) {
      forall p, q | 0 <= p < |Addrs(to)| && 0 <= q < |Addrs(from)|
        ensures Addrs(to)[p] != Addrs(from)[q]
      {
        var i, k := ViewOf(to, p);
        var j, l := ViewOf(from, q);
        DisjointRanges(to[i], from[j]);
      }
    }
  }

  /** The addresses of a sequence are distinct exactly when no two of its views overlap. */
  lemma DistinctExact(views: seq<View>)
    ensures Distinct(Addrs(views)) <==> forall i, j :: 0 <= i < j < |views| ==> Disjoint(views[i], views[j])
  {
    hide Addrs, Total, Disjoint;
    if Distinct(Addrs(views)) {
      forall i, j | 0 <= i < j < |views|
        ensures Disjoint(views[i], views[j])
      {
        forall k, l | 0 <= k < views[i].size && 0 <= l < views[j].size
          ensures Range(views[i])[k] != Range(views[j])[l]
        {
          AddrAt(views, i, k);
          AddrAt(views, j, l);
          TotalInOrder(views, i, j);
        }
        DisjointRanges(views[i], views[j]);
      }
    }
    if forall i, j :: 0 <= i < j < |views| ==> Disjoint(views[i], views[j]) {
      forall p, q | 0 <= p < q < |Addrs(views)|
        ensures Addrs(views)[p] != Addrs(views)[q]
      {
        var i, k := ViewOf(views, p);
        var j, l := ViewOf(views, q);
        if i < j {
          DisjointRanges(views[i], views[j]);
        } else if j < i {
          TotalInOrder(views, j, i);
        }
      }
    }
  }

  lemma TotalInOrder(views: seq<View>, i: nat, j: nat)
    requires i < j <= |views|
    ensures Total(views[..i]) + views[i].size <= Total(views[..j])
  {
    hide Addrs;
    TotalNext(views, i);
    TotalUpTo(views[..j], i + 1);
    assert views[..j][..i + 1] == views[..i + 1];
  }

  /** Every flattened index belongs to a byte of some view. */
  lemma {:induction false} ViewOf(views: seq<View>, p: nat) returns (i: nat, k: nat)
    requires p < Total(views)
    ensures i < |views| && k < views[i].size && p == Total(views[..i]) + k
    ensures Addrs(views)[p] == Range(views[i])[k]
    decreases |views|
  {
    var front := views[..|views| - 1];
    if p < Total(front) {
      i, k := ViewOf(front, p);
      assert front[..i] == views[..i];
    } else {
      i, k := |front|, p - Total(front);
    }
    hide Total;
    AddrAt(views, i, k);
  }

  /** Total size of a buffer sequence. */
  method BufferSize(views: seq<View>) returns (total: nat)
    ensures total == |Addrs(views)|
  {
    total := 0;
    var iter := 0;
    while iter != |views|
      invariant 0 <= iter <= |views| && total == Total(views[..iter])
      decreases |views| - iter
    {
      TotalNext(views, iter);
      total := total + views[iter].size;
      iter := iter + 1;
    }
    assert views[..iter] == views;
  }

  /** A cursor (iter, offset) stands at flattened index `at`. */
  ghost predicate CursorAt(views: seq<View>, iter: nat, offset: nat, at: nat) {
    && iter <= |views| && at == Total(views[..iter]) + offset
    && (if iter == |views| then offset == 0 else offset <= views[iter].size)
  }

  lemma CursorBound(views: seq<View>, iter: nat, offset: nat, at: nat)
    requires CursorAt(views, iter, offset, at)
    ensures at <= Total(views)
    ensures iter == |views| ==> at == Total(views)
  {
    hide Addrs;
    if iter < |views| {
      TotalNext(views, iter);
      TotalUpTo(views, iter + 1);
    } else {
      assert views[..iter] == views;
    }
  }

  lemma CursorReach(views: seq<View>, iter: nat, offset: nat, at: nat, m: nat)
    requires CursorAt(views, iter, offset, at) && iter < |views| && m <= Plus(views[iter], offset).size
    ensures at + m <= Total(views)
  {
    hide Addrs;
    TotalNext(views, iter);
    TotalUpTo(views, iter + 1);
  }

  /** `m` consecutive memory bytes from `start` stand at indexes `at`, `at + 1`, ... of the flattened addresses. */
  ghost predicate Run(addrs: seq<nat>, at: nat, start: nat, m: nat) {
    at + m <= |addrs| && forall k :: at <= k < at + m ==> addrs[k] == start + (k - at)
  }

  /** The view left at a cursor is the next run. */
  lemma CursorView(views: seq<View>, iter: nat, offset: nat, at: nat, m: nat)
    requires CursorAt(views, iter, offset, at) && iter < |views| && m <= views[iter].size - offset
    ensures Run(Addrs(views), at, Plus(views[iter], offset).start, m)
  {
    hide Addrs;
    TotalNext(views, iter);
    TotalUpTo(views, iter + 1);
    forall k | at <= k < at + m
      ensures Addrs(views)[k] == Plus(views[iter], offset).start + (k - at)
    {
      AddrAt(views, iter, offset + (k - at));
    }
  }

  /** Moving a cursor past m bytes of its view, and on to the next view when that uses the view up. */
  lemma CursorMoves(views: seq<View>, iter: nat, offset: nat, at: nat, m: nat)
    requires CursorAt(views, iter, offset, at) && iter < |views| && m <= views[iter].size - offset
    ensures if m == views[iter].size - offset then CursorAt(views, iter + 1, 0, at + m)
            else CursorAt(views, iter, offset + m, at + m)
  {
    TotalNext(views, iter);
  }

  /** A memcpy that does not overlap itself is m more bytes copied one by one. */
  lemma {:induction false} CopyExtends(before: seq<Byte>, mid: seq<Byte>, to: seq<nat>, from: seq<nat>,
                                       n: nat, m: nat, t: nat, s: nat)
    requires CopiedInOrder(before, mid, to, from, n)
    requires Run(to, n, t, m) && Run(from, n, s, m)
    requires t + m <= |mid| && s + m <= |mid| && Separate(t, s, m)
    ensures CopiedInOrder(before, Overwritten(mid, t, s, m), to, from, n + m)
    decreases m
  {
    hide Overwritten, CopiedInOrder, Run;
    if m == 0 {
      OverwrittenNothing(mid, t, s);
    } else {
      RunLast(to, n, t, m);
      RunLast(from, n, s, m);
      CopyExtends(before, mid, to, from, n, m - 1, t, s);
      OverwrittenNext(mid, t, s, m);
      CopiedNext(before, Overwritten(mid, t, s, m - 1), to, from, n + (m - 1));
    }
  }

  lemma RunLast(addrs: seq<nat>, at: nat, start: nat, m: nat)
    requires m > 0 && Run(addrs, at, start, m)
    ensures Run(addrs, at, start, m - 1) && at + m <= |addrs| && addrs[at + (m - 1)] == start + (m - 1)
  {
  }

  lemma CopiedNext(before: seq<Byte>, mid: seq<Byte>, to: seq<nat>, from: seq<nat>, n: nat)
    requires CopiedInOrder(before, mid, to, from, n) && n < |to| && n < |from|
    ensures to[n] < |mid| && from[n] < |mid|
    ensures CopiedInOrder(before, mid[to[n] := mid[from[n]]], to, from, n + 1)
  {
  }

  lemma OverwrittenNothing(mid: seq<Byte>, t: nat, s: nat)
    requires t <= |mid| && s <= |mid|
    ensures Overwritten(mid, t, s, 0) == mid
  {
  }

  lemma OverwrittenNext(mid: seq<Byte>, t: nat, s: nat, m: nat)
    requires m > 0 && t + m <= |mid| && s + m <= |mid| && Separate(t, s, m)
    ensures var most := Overwritten(mid, t, s, m - 1);
            |most| == |mid| && Overwritten(mid, t, s, m) == most[t + m - 1 := most[s + m - 1]]
  {
  }

  /** Two memory regions of a size do not overlap. */
  predicate Separate(t: nat, s: nat, m: nat) {
    m == 0 || t + m <= s || s + m <= t
  }

  /**
   Where the first n bytes are both in view i of the targets and in view j of
   the sources, one memcpy moves them, and it must not overlap itself.
   */
  predicate PairApart(target: seq<View>, i: nat, source: seq<View>, j: nat, n: nat)
    requires i < |target| && j < |source|
  {
    var ti, sj := Total(target[..i]), Total(source[..j]);
    var lo, hi := Max(ti, sj), Min(Min(ti + target[i].size, sj + source[j].size), n);
    lo < hi ==> Separate(target[i].start + (lo - ti), source[j].start + (lo - sj), hi - lo)
  }

  /** What memcpy asks for, and no more: none of the memcpys that copy n bytes overlaps itself. */
  predicate MemcpysApart(target: seq<View>, source: seq<View>, n: nat) {
    forall i, j :: 0 <= i < |target| && 0 <= j < |source| ==> PairApart(target, i, source, j, n)
  }

  /** Sequences with no address in common are fine. */
  lemma ApartSuffices(target: seq<View>, source: seq<View>, n: nat)
    requires Apart(Addrs(target), Addrs(source))
    ensures MemcpysApart(target, source, n)
  {
    hide Addrs, Total, Apart;
    forall i, j | 0 <= i < |target| && 0 <= j < |source|
      ensures PairApart(target, i, source, j, n)
    {
      var ti, sj := Total(target[..i]), Total(source[..j]);
      var lo, hi := Max(ti, sj), Min(Min(ti + target[i].size, sj + source[j].size), n);
      if lo < hi {
        var t, s := target[i].start + (lo - ti), source[j].start + (lo - sj);
        if t <= s < t + (hi - lo) {
          AddrsDiffer(target, i, lo - ti + (s - t), source, j, lo - sj);
        } else if s <= t < s + (hi - lo) {
          AddrsDiffer(target, i, lo - ti, source, j, lo - sj + (t - s));
        }
      }
    }
  }

  lemma AddrsDiffer(target: seq<View>, i: nat, k: nat, source: seq<View>, j: nat, l: nat)
    requires Apart(Addrs(target), Addrs(source))
    requires i < |target| && k < target[i].size && j < |source| && l < source[j].size
    ensures target[i].start + k != source[j].start + l
  {
    hide Addrs, Total;
    AddrAt(target, i, k);
    AddrAt(source, j, l);
  }

  /** memcpy(to, from, n) within one memory. */
  function Overwritten(mem: seq<Byte>, to: nat, from: nat, n: nat): seq<Byte>
    requires to + n <= |mem| && from + n <= |mem|
  {
    mem[..to] + mem[from..from + n] + mem[to + n..]
  }

  method Memcpy(mem: array<Byte>, to: nat, from: nat, n: nat)
    requires to + n <= mem.Length && from + n <= mem.Length
    requires Separate(to, from, n)
    modifies mem
    ensures mem[..] == Overwritten(old(mem[..]), to, from, n)
  {
    forall k | 0 <= k < n {
      mem[to + k] := mem[from + k];
    }
  }

  method CopyOne(mem: array<Byte>, target: View, source: View) returns (n: nat)
    requires target.start + target.size <= mem.Length && source.start + source.size <= mem.Length
    requires Separate(target.start, source.start, Min(target.size, source.size))
    modifies mem
    ensures n == Min(target.size, source.size)
    ensures mem[..] == Overwritten(old(mem[..]), target.start, source.start, n)
  {
    var targetSize := target.size;
    var sourceSize := source.size;
    n := if targetSize < sourceSize then targetSize else sourceSize;
    Memcpy(mem, target.start, source.start, n);
  }

  lemma CursorStart(views: seq<View>)
    ensures CursorAt(views, 0, 0, 0)
  {
  }

  lemma CopyStart(mem: seq<Byte>, target: seq<View>, source: seq<View>)
    requires Inside(target, |mem|) && Inside(source, |mem|)
    ensures CopiedInOrder(mem, mem, Addrs(target), Addrs(source), 0)
  {
    hide Addrs;
    AddrsInside(target, |mem|);
    AddrsInside(source, |mem|);
  }

  /** Before a memcpy of m bytes at the two cursors: it stays inside memory and does not overlap itself. */
  lemma StepReady(target: seq<View>, ti: nat, to: nat, source: seq<View>, si: nat, so: nat,
                  at: nat, m: nat, n: nat, length: nat)
    requires Inside(target, length) && Inside(source, length) && MemcpysApart(target, source, n) && at + m <= n
    requires CursorAt(target, ti, to, at) && ti < |target| && m <= Plus(target[ti], to).size
    requires CursorAt(source, si, so, at) && si < |source| && m <= Plus(source[si], so).size
    ensures var t, s := Plus(target[ti], to), Plus(source[si], so);
            && t.start + t.size <= length && s.start + s.size <= length
            && Separate(t.start, s.start, m)
  {
    hide Total;
    assert PairApart(target, ti, source, si, n);
  }

  /** After it: the copy is m bytes longer and both cursors have moved on. */
  lemma StepDone(target: seq<View>, ti: nat, to: nat, source: seq<View>, si: nat, so: nat, at: nat, m: nat,
                 before: seq<Byte>, mid: seq<Byte>, after: seq<Byte>)
    requires CursorAt(target, ti, to, at) && ti < |target| && m <= Plus(target[ti], to).size
    requires CursorAt(source, si, so, at) && si < |source| && m <= Plus(source[si], so).size
    requires CopiedInOrder(before, mid, Addrs(target), Addrs(source), at)
    requires var t, s := Plus(target[ti], to).start, Plus(source[si], so).start;
             && t + m <= |mid| && s + m <= |mid| && Separate(t, s, m)
             && after == Overwritten(mid, t, s, m)
    ensures CopiedInOrder(before, after, Addrs(target), Addrs(source), at + m)
    ensures if m == Plus(target[ti], to).size then CursorAt(target, ti + 1, 0, at + m)
            else CursorAt(target, ti, to + m, at + m)
    ensures if m == Plus(source[si], so).size then CursorAt(source, si + 1, 0, at + m)
            else CursorAt(source, si, so + m, at + m)
  {
    hide Addrs, Total, CopiedInOrder, Overwritten;
    CursorMoves(target, ti, to, at, m);
    CursorMoves(source, si, so, at, m);
    CursorView(target, ti, to, at, m);
    CursorView(source, si, so, at, m);
    hide CursorAt, Run;
    CopyExtends(before, mid, Addrs(target), Addrs(source), at, m,
                Plus(target[ti], to).start, Plus(source[si], so).start);
  }

  method CopySeq(mem: array<Byte>, target: seq<View>, source: seq<View>) returns (total: nat)
    requires Inside(target, mem.Length) && Inside(source, mem.Length)
    requires MemcpysApart(target, source, Min(Total(target), Total(source)))
    modifies mem
    ensures total == Min(Total(target), Total(source))
    ensures CopiedInOrder(old(mem[..]), mem[..], Addrs(target), Addrs(source), total)
  {
    hide Addrs, Total, MemcpysApart, CopiedInOrder, CursorAt, Overwritten, Separate;
    ghost var before, n := mem[..], Min(Total(target), Total(source));
    total := 0;
    var targetIter, targetOffset := 0, 0;
    var sourceIter, sourceOffset := 0, 0;
    CursorStart(target);
    CursorStart(source);
    CopyStart(before, target, source);
    while targetIter != |target| && sourceIter != |source|
      invariant targetIter <= |target| && CursorAt(target, targetIter, targetOffset, total)
      invariant sourceIter <= |source| && CursorAt(source, sourceIter, sourceOffset, total)
      invariant CopiedInOrder(before, mem[..], Addrs(target), Addrs(source), total)
      decreases |target| - targetIter + (|source| - sourceIter)
    {
      var t := Plus(target[targetIter], targetOffset);
      var s := Plus(source[sourceIter], sourceOffset);
      ghost var mid, at := mem[..], total;
      ghost var m := Min(t.size, s.size);
      CursorReach(target, targetIter, targetOffset, at, m);
      CursorReach(source, sourceIter, sourceOffset, at, m);
      StepReady(target, targetIter, targetOffset, source, sourceIter, sourceOffset, at, m, n, mem.Length);
      var copied := CopyOne(mem, t, s);
      StepDone(target, targetIter, targetOffset, source, sourceIter, sourceOffset, at, m, before, mid, mem[..]);
      total := total + copied;
      if copied == t.size {
        targetIter, targetOffset := targetIter + 1, 0;
      } else {
        targetOffset := targetOffset + copied;
      }
      if copied == s.size {
        sourceIter, sourceOffset := sourceIter + 1, 0;
      } else {
        sourceOffset := sourceOffset + copied;
      }
    }
    CursorBound(target, targetIter, targetOffset, total);
    CursorBound(source, sourceIter, sourceOffset, total);
  }

  method CopyOneLimited(mem: array<Byte>, target: View, source: View, maxBytes: nat) returns (n: nat)
    requires target.start + target.size <= mem.Length && source.start + source.size <= mem.Length
    requires Separate(target.start, source.start, Min(Min(target.size, maxBytes), source.size))
    modifies mem
    ensures n == Min(Min(target.size, maxBytes), source.size)
    ensures mem[..] == Overwritten(old(mem[..]), target.start, source.start, n)
  {
    n := CopyOne(mem, Limited(target, maxBytes), source);
  }

  method CopySeqLimited(mem: array<Byte>, target: seq<View>, source: seq<View>, maxBytes: nat)
    returns (total: nat)
    requires Inside(target, mem.Length) && Inside(source, mem.Length)
    requires MemcpysApart(target, source, Min(Min(Total(target), Total(source)), maxBytes))
    modifies mem
    ensures total == Min(Min(Total(target), Total(source)), maxBytes)
    ensures CopiedInOrder(old(mem[..]), mem[..], Addrs(target), Addrs(source), total)
  {
    hide Addrs, Total, MemcpysApart, CopiedInOrder, CursorAt, Overwritten, Separate;
    ghost var before, n := mem[..], Min(Min(Total(target), Total(source)), maxBytes);
    total := 0;
    var targetIter, targetOffset := 0, 0;
    var sourceIter, sourceOffset := 0, 0;
    CursorStart(target);
    CursorStart(source);
    CopyStart(before, target, source);
    while total != maxBytes && targetIter != |target| && sourceIter != |source|
      invariant total <= maxBytes
      invariant targetIter <= |target| && CursorAt(target, targetIter, targetOffset, total)
      invariant sourceIter <= |source| && CursorAt(source, sourceIter, sourceOffset, total)
      invariant CopiedInOrder(before, mem[..], Addrs(target), Addrs(source), total)
      decreases |target| - targetIter + (|source| - sourceIter), maxBytes - total
    {
      var t := Plus(target[targetIter], targetOffset);
      var s := Plus(source[sourceIter], sourceOffset);
      ghost var mid, at := mem[..], total;
      ghost var m := Min(Min(t.size, maxBytes - total), s.size);
      CursorReach(target, targetIter, targetOffset, at, m);
      CursorReach(source, sourceIter, sourceOffset, at, m);
      StepReady(target, targetIter, targetOffset, source, sourceIter, sourceOffset, at, m, n, mem.Length);
      var copied := CopyOneLimited(mem, t, s, maxBytes - total);
      StepDone(target, targetIter, targetOffset, source, sourceIter, sourceOffset, at, m, before, mid, mem[..]);
      total := total + copied;
      if copied == t.size {
        targetIter, targetOffset := targetIter + 1, 0;
      } else {
        targetOffset := targetOffset + copied;
      }
      if copied == s.size {
        sourceIter, sourceOffset := sourceIter + 1, 0;
      } else {
        sourceOffset := sourceOffset + copied;
      }
    }
    CursorBound(target, targetIter, targetOffset, total);
    CursorBound(source, sourceIter, sourceOffset, total);
  }

  lemma Single(b: View)
    ensures Total([b]) == b.size && Addrs([b]) == Range(b)
  {
  }

  /** The one-buffer target is shrunk from the front instead of being tracked by an offset. */
  method CopyToOne(mem: array<Byte>, target: View, source: seq<View>) returns (total: nat)
    requires target.start + target.size <= mem.Length && Inside(source, mem.Length)
    requires MemcpysApart([target], source, Min(target.size, Total(source)))
    modifies mem
    ensures total == Min(Total([target]), Total(source))
    ensures CopiedInOrder(old(mem[..]), mem[..], Addrs([target]), Addrs(source), total)
  {
    hide Addrs, Total, MemcpysApart, CopiedInOrder, CursorAt, Overwritten, Separate, Range;
    Single(target);
    ghost var before, n := mem[..], Min(target.size, Total(source));
    total := 0;
    var sourceIter := 0;
    CursorStart([target]);
    CursorStart(source);
    CursorBound(source, 0, 0, 0);
    CopyStart(before, [target], source);
    var left := target;
    while left.size > 0 && sourceIter != |source|
      invariant sourceIter <= |source| && total <= Total(source) && left.size == target.size - total
      invariant left.size > 0 ==>
        left == Plus(target, total) && CursorAt([target], 0, total, total) && CursorAt(source, sourceIter, 0, total)
      invariant CopiedInOrder(before, mem[..], Addrs([target]), Addrs(source), total)
      decreases |source| - sourceIter
    {
      var s := source[sourceIter];
      ghost var mid, at := mem[..], total;
      ghost var m := Min(left.size, s.size);
      CursorReach([target], 0, at, at, m);
      CursorReach(source, sourceIter, 0, at, m);
      StepReady([target], 0, at, source, sourceIter, 0, at, m, n, mem.Length);
      var copied := CopyOne(mem, left, s);
      StepDone([target], 0, at, source, sourceIter, 0, at, m, before, mid, mem[..]);
      CursorBound(source, if m == s.size then sourceIter + 1 else sourceIter, if m == s.size then 0 else m, at + m);
      total := total + copied;
      left := Plus(left, copied);
      sourceIter := sourceIter + 1;
    }
    if left.size > 0 {
      CursorBound(source, sourceIter, 0, total);
    }
  }

  method CopyFromOne(mem: array<Byte>, target: seq<View>, source: View) returns (total: nat)
    requires Inside(target, mem.Length) && source.start + source.size <= mem.Length
    requires MemcpysApart(target, [source], Min(Total(target), source.size))
    modifies mem
    ensures total == Min(Total(target), Total([source]))
    ensures CopiedInOrder(old(mem[..]), mem[..], Addrs(target), Addrs([source]), total)
  {
    hide Addrs, Total, MemcpysApart, CopiedInOrder, CursorAt, Overwritten, Separate, Range;
    Single(source);
    ghost var before, n := mem[..], Min(Total(target), source.size);
    total := 0;
    var targetIter := 0;
    CursorStart(target);
    CursorStart([source]);
    CursorBound(target, 0, 0, 0);
    CopyStart(before, target, [source]);
    var left := source;
    while left.size > 0 && targetIter != |target|
      invariant targetIter <= |target| && total <= Total(target) && left.size == source.size - total
      invariant left.size > 0 ==>
        left == Plus(source, total) && CursorAt([source], 0, total, total) && CursorAt(target, targetIter, 0, total)
      invariant CopiedInOrder(before, mem[..], Addrs(target), Addrs([source]), total)
      decreases |target| - targetIter
    {
      var t := target[targetIter];
      ghost var mid, at := mem[..], total;
      ghost var m := Min(left.size, t.size);
      CursorReach(target, targetIter, 0, at, m);
      CursorReach([source], 0, at, at, m);
      StepReady(target, targetIter, 0, [source], 0, at, at, m, n, mem.Length);
      var copied := CopyOne(mem, t, left);
      StepDone(target, targetIter, 0, [source], 0, at, at, m, before, mid, mem[..]);
      CursorBound(target, if m == t.size then targetIter + 1 else targetIter, if m == t.size then 0 else m, at + m);
      total := total + copied;
      left := Plus(left, copied);
      targetIter := targetIter + 1;
    }
    if left.size > 0 {
      CursorBound(target, targetIter, 0, total);
    }
  }
}
