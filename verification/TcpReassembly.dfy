/**
 * Receiving data in net/tcp_in.c: the acceptance test, the queue of segments
 * that arrived out of order, and delivery into the receive ring.
 */
module TcpReassembly {
  import opened Common
  import opened TcpRing
  import opened TcpStream

  class Receiver {
    var nxt: u32
    var ofo: seq<Seg>
    const ring: Ring

    // The sender's stream, and how far and where it has been received.
    ghost const st: Stream
    ghost const iss: int
    ghost var n: nat
    ghost var ivs: seq<Iv>

    /**
     * Everything up to position `at` has been written to the ring, in order,
     * and the queue holds pieces of the stream above `base` that fit the ring.
     */
    ghost predicate Written(at: nat, base: nat)
      reads this, ring, ring.data
    {
      && ring.Valid() && ring.data.Length < HALF && ring.count <= at
      && ring.Contents() == Slice(st, at - ring.count, at)
      && AllCarry(ofo, ivs, st, iss) && Gapped(ivs, base, at + ring.Free())
    }

    ghost predicate Inv()
      reads this, ring, ring.data
    {
      nxt == Wrap(iss + n) && Written(n, n)
    }

    // Position `x` has been received: delivered to the ring, or waiting in the queue.
    ghost predicate Received(x: nat)
      reads this
    {
      x < n || Covered(ivs, x)
    }

    constructor (r: Ring, ghost s: Stream, start: u32)
      requires r.Valid() && r.count == 0 && r.data.Length < HALF
      ensures Inv() && n == 0 && ivs == [] && st == s && iss == start && ring == r && nxt == start
    {
      nxt, ofo, ring := start, [], r;
      st, iss, n, ivs := s, start, 0, [];
    }

    // tcp_ofo_seq_insert on the receiver's queue.
    method InsertOfo(s: Seg, ghost iv: Iv) returns (ok: bool)
      requires Inv() && Carries(s, iv, st, iss) && n < iv.lo < iv.hi <= n + ring.Free()
      modifies `ofo, `ivs
      ensures ok <==> !Contained(old(ivs), iv)
      ensures ok ==> Inv() && forall x: nat :: Covered(ivs, x) <==> Covered(old(ivs), x) || Within(iv, x)
    {
      hide Contained; hide Covered; hide Within; hide AllCarry; hide Carries; hide Gapped;
      var ok', q, ivs' := Insert(ofo, s, ivs, iv, n, n + ring.Free(), st, iss);
      ok := ok';
      if ok {
        ofo, ivs := q, ivs';
      }
    }

    /**
     * check_tcp_ofo_seq, called when the ring has been filled up to position `at`:
     * the queued segment that continues there is delivered whole, and those that
     * ended before are dropped.
     */
    method CheckOfo(checkSeq: u32, ghost at: nat) returns (size: nat)
      requires checkSeq == Wrap(iss + at) && Written(at, n) && n <= at && at + ring.Free() < n + HALF
      modifies `ofo, `ivs, ring, ring.data
      ensures Written(at + size, at + size) && size <= old(ring.Free()) && ring.count == old(ring.count) + size
      ensures ring.Contents() == old(ring.Contents()) + Slice(st, at, at + size)
      ensures forall x: nat :: x < at + size || Covered(ivs, x) <==> x < at || Covered(old(ivs), x)
    {
      hide Wrap; hide Slice; hide Covered; hide View; hide AllCarry; hide Gapped;
      var rest, tail, rivs := NextInOrder(ofo, checkSeq, ivs, n, at, at + ring.Free(), st, iss);
      ofo, ivs := rest, rivs;
      SliceJoin(st, at - ring.count, at, at + |tail|);
      size := 0;
      if tail != [] {
        size := ring.Write(tail, |tail|);
        // What the ring could not take would stay in the queue, but all of it fits.
        assert size == |tail| && tail[..size] == tail;
      } else {
        SliceNone(st, at);
      }
    }

    // The part of copy_data_to_rcvbuf and tcp_data_in for a segment that starts at rcv.nxt.
    method Deliver(s: Seg, ghost iv: Iv)
      requires Inv() && Carries(s, iv, st, iss) && iv.lo == n && iv.hi <= n + ring.Free()
      modifies this, ring, ring.data
      ensures Inv() && n + ring.Free() == old(n + ring.Free()) && iv.hi <= n
      ensures ring.Contents() == old(ring.Contents()) + Slice(st, old(n), n)
      ensures forall x: nat :: Received(x) <==> old(Received(x)) || Within(iv, x)
    {
      hide Wrap; hide Slice; hide Covered; hide View; hide AllCarry; hide Gapped; hide Carries; hide Pos;
      CarriesFacts(s, iv, st, iss);
      ghost var c := ring.Contents();
      SliceJoin(st, n - ring.count, n, iv.hi);
      var count := ring.Write(s.buf, s.dataLen);
      assert count == s.dataLen && s.buf[..count] == s.buf;
      WrapPlus(iss + n, count);
      WrapPlus(iss + n, 0);
      var more := CheckOfo(Wrap(s.start + count), iv.hi);
      Appended(c, st, n, iv.hi, iv.hi + more);
      var size := count + more;
      if size > 0 {
        WrapPlus(iss + n, size);
        nxt := Wrap(nxt + size);
      }
      n := n + size;
    }

    /**
     * tcp_data_in, from its second statement on.  The bytes of the segment that
     * fit the window become received, and the ring gets the stream up to the
     * first position not received.  `ok` is false when the assertion in
     * pktbuf_remove_header stops the kernel.
     */
    method DataIn(s: Seg, ghost iv: Iv) returns (ok: bool)
      requires Inv() && Carries(s, iv, st, iss) && Near(n, iv)
      modifies this, ring, ring.data
      ensures ok <==> !(old(n) < iv.lo <= old(n + ring.Free()) && Stops(old(ivs), Clip(iv, old(n), old(ring.Free()))))
      ensures ok && iv.lo <= old(n + ring.Free()) ==>
                && Inv() && n + ring.Free() == old(n + ring.Free()) && old(n) <= n
                && ring.Contents() == old(ring.Contents()) + Slice(st, old(n), n)
                && forall x: nat :: Received(x) <==> old(Received(x)) || (iv.lo <= x < iv.hi && x < old(n + ring.Free()))
      ensures iv.lo > old(n + ring.Free()) ==> nxt == Wrap(old(nxt) - 1) && n == old(n) && unchanged(ring) && unchanged(ring.data)
    {
      hide Wrap; hide Slice; hide Covered; hide View; hide AllCarry; hide Gapped; hide Contained;
      ok := true;
      SliceNone(st, n);
      WrapSame(iss, iv.lo, n);
      if s.start == nxt && s.dataLen == 1 && ring.Free() == 0 {
        return;
      }
      var fits, s' := Trim(s, nxt, ring.Free(), n, iv, st, iss);
      if !fits {
        // The result -1 has the unsigned type size_t, so the caller does not see it as negative.
        nxt := Wrap(nxt - 1);
        return;
      }
      ghost var iv' := Clip(iv, n, ring.Free());
      WrapSame(iss, iv'.lo, n);
      if s'.start == nxt {
        Deliver(s', iv');
      } else if s'.dataLen != 0 {
        ok := InsertOfo(s', iv');
      }
    }

    /**
     * tcp_in in a synchronised state: a segment that is not acceptable is dropped.
     * One that is acceptable makes its bytes inside the window received.
     */
    method SegmentIn(s: Seg, ghost iv: Iv) returns (ok: bool)
      requires Inv() && Carries(s, iv, st, iss) && n < iv.lo + HALF && iv.hi < n + HALF
      modifies this, ring, ring.data
      ensures ok <==> !(InWindow(old(n), old(ring.Free()), iv) && old(n) < iv.lo && Stops(old(ivs), Clip(iv, old(n), old(ring.Free()))))
      ensures ok ==>
                && Inv() && n + ring.Free() == old(n + ring.Free()) && old(n) <= n
                && ring.Contents() == old(ring.Contents()) + Slice(st, old(n), n)
      ensures ok ==> forall x: nat :: Received(x) <==>
                       old(Received(x)) || (!Spans(old(n), old(ring.Free()), iv) && Within(iv, x) && x < old(n + ring.Free()))
      ensures !ok ==> iv.lo < iv.hi && old(Received(iv.lo))
    {
      hide Wrap; hide Slice; hide Covered; hide View; hide AllCarry; hide Gapped; hide Contained; hide SeqAcceptable;
      ok := true;
      ghost var was, clip := ivs, Clip(iv, n, ring.Free());
      SliceNone(st, n);
      AcceptableIsInWindow(n, ring.Free(), iv, iss);
      NothingNew(n, ring.Free(), iv);
      if SeqAcceptable(nxt, ring.Free(), s.start, s.dataLen) {
        ok := DataIn(s, iv);
        if !ok {
          StoppedFirst(was, clip);
        }
      }
    }

    // tcp_recv: hands the next bytes of the stream to the reader.  The right edge of the window never moves back.
    method Read(size: nat) returns (bytes: seq<byte>)
      requires Inv()
      modifies ring
      ensures Inv() && n + ring.Free() >= old(n + ring.Free())
      ensures |bytes| == if size > old(ring.count) then old(ring.count) else size
      ensures bytes == Slice(st, n - old(ring.count), n - old(ring.count) + |bytes|) && ring.count == old(ring.count) - |bytes|
    {
      hide Slice; hide View; hide AllCarry;
      bytes := ring.Read(size);
      ghost var from := n - old(ring.count);
      SliceCut(st, from, from + |bytes|, n);
      assert (bytes + ring.Contents())[..|bytes|] == bytes;
      assert (bytes + ring.Contents())[|bytes|..] == ring.Contents();
    }

    /**
     * A run of any length: segments arrive, and after each the reader takes up to
     * so many bytes.  What the reader gets is the stream, from where it was, without
     * gap, and every segment that fits the first window is received.  The kernel is
     * stopped only if some byte comes twice.  `start` is the position of rcv.nxt; the
     * run ends early only at a segment that lies 2^31 or more away from it.
     */
    method Run(segs: seq<Seg>, sizes: seq<nat>, at: seq<Iv>, start: nat) returns (ok: bool, done: nat, out: seq<byte>)
      requires Inv() && |segs| == |sizes| == |at| && start == n && forall k :: 0 <= k < |segs| ==> Carries(segs[k], at[k], st, iss)
      modifies this, ring, ring.data
      ensures done <= |segs| && (ok && done < |segs| ==> at[done].lo + HALF <= n || n + HALF <= at[done].hi) && (!ok ==> done < |segs|)
      ensures ok ==> Inv() && old(n) <= n && n + ring.Free() >= old(n + ring.Free())
      ensures ok ==> old(n - ring.count) + |out| == n - ring.count && out == Slice(st, old(n - ring.count), n - ring.count)
      ensures ok ==> forall k, x: nat :: 0 <= k < done && at[k].hi <= old(n + ring.Free()) && Within(at[k], x) ==> Received(x)
      ensures ok ==> forall x: nat :: Received(x) ==> old(Received(x)) || Came(at[..done], x)
      ensures !ok ==> exists x: nat :: Within(at[done], x) && (old(Received(x)) || Came(at[..done], x))
    {
      hide Wrap; hide Slice; hide Covered; hide View; hide AllCarry; hide Gapped; hide Contained; hide Carries; hide Stops; hide Came; hide InWindow;
      ok, done, out := true, 0, [];
      var pos := start;
      ghost var from: nat := n - ring.count;
      SliceNone(st, from);
      while done < |segs| && InRange(pos, at[done])
        invariant 0 <= done <= |segs| && Inv() && old(n) <= n == pos && n + ring.Free() >= old(n + ring.Free())
        invariant from + |out| == n - ring.count && out == Slice(st, from, n - ring.count)
        invariant ok
        invariant forall x: nat :: Received(x) ==> old(Received(x)) || Came(at[..done], x)
        invariant forall j, x: nat :: 0 <= j < done && at[j].hi <= old(n + ring.Free()) && Within(at[j], x) ==> Received(x)
      {
        var before := nxt;
        ok := SegmentIn(segs[done], at[done]);
        if !ok {
          assert Within(at[done], at[done].lo);
          return;
        }
        Moved(iss, pos, n);
        pos := pos + Wrap(nxt - before);
        CameMore(at, done);
        ghost var mid: nat := n - ring.count;
        var bytes := Read(sizes[done]);
        SliceJoin(st, from, mid, mid + |bytes|);
        out := out + bytes;
        done := done + 1;
      }
    }

    // rcv.nxt is the first position that has not been received.
    lemma FirstMissing()
      requires Inv()
      ensures !Received(n) && forall x: nat :: x < n ==> Received(x)
    {
    }
  }

  // tcp_seq_acceptable, for a segment of `len` bytes without SYN and FIN.
  predicate SeqAcceptable(nxt: u32, win: nat, start: u32, len: nat) {
    if len == 0 then
      if win == 0 then start == nxt
      else SeqLE(nxt, start) && SeqLE(start, Wrap(nxt + win - 1))
    else
      && win > 0
      && var last := Wrap(start + len - 1);
         || (SeqLE(nxt, start) && SeqLE(start, Wrap(nxt + win - 1)))
         || (SeqLE(nxt, last) && SeqLE(last, Wrap(nxt + win - 1)))
  }

  // The test of section 3.3 of RFC 793, on positions instead of sequence numbers.
  ghost predicate InWindow(n: nat, win: nat, iv: Iv) {
    if iv.lo == iv.hi then
      if win == 0 then iv.lo == n else n <= iv.lo < n + win
    else
      n <= iv.lo < n + win || n < iv.hi <= n + win
  }

  // The segment begins before the window and ends behind it.
  ghost predicate Spans(n: nat, win: nat, iv: Iv) {
    iv.lo < n && n + win < iv.hi
  }

  // Sequence numbers are accepted exactly when the positions they stand for are in the window, for every initial number.
  lemma AcceptableIsInWindow(n: nat, win: nat, iv: Iv, iss: int)
    requires iv.lo <= iv.hi < n + HALF && n < iv.lo + HALF && win < HALF
    ensures SeqAcceptable(Wrap(iss + n), win, Wrap(iss + iv.lo), iv.hi - iv.lo) <==> InWindow(n, win, iv)
  {
    hide Wrap; hide SeqLE;
    WrapPlus(iss + n, win - 1);
    WrapPlus(iss + iv.lo, iv.hi - iv.lo - 1);
    WrapSame(iss, iv.lo, n);
    SeqCompare(iss, n, iv.lo);
    if n <= iv.lo && win > 0 {
      SeqCompare(iss, iv.lo, n + win - 1);
    }
    if iv.lo < iv.hi {
      SeqCompare(iss, n, iv.hi - 1);
      if n < iv.hi {
        SeqCompare(iss, iv.hi - 1, n + win - 1);
      }
    }
  }

  // What the test turns away has nothing in the window, unless it spans the whole window.
  lemma NothingNew(n: nat, win: nat, iv: Iv)
    requires iv.lo <= iv.hi
    ensures !InWindow(n, win, iv) && !Spans(n, win, iv) ==> forall x: nat :: Within(iv, x) && x < n + win ==> x < n
    ensures InWindow(n, win, iv) ==> !Spans(n, win, iv) && n <= iv.hi && iv.lo <= n + win
  {
  }

  // The segment reaches rcv.nxt, and begins and ends less than 2^31 positions away from it.
  ghost predicate Near(n: nat, iv: Iv) {
    n < iv.lo + HALF && n <= iv.hi < n + HALF
  }

  // The part of `iv` inside the window of `free` positions at `n`.
  ghost function Clip(iv: Iv, n: nat, free: nat): (r: Iv)
    requires iv.lo <= iv.hi
    ensures iv.lo <= n + free && n <= iv.hi ==> r.lo <= r.hi && forall x: nat :: Within(r, x) <==> Within(iv, x) && n <= x < n + free
  {
    Iv(if iv.lo < n then n else iv.lo, if iv.hi > n + free then n + free else iv.hi)
  }

  ghost predicate Stops(ivs: seq<Iv>, iv: Iv) {
    iv.lo < iv.hi && Contained(ivs, iv)
  }

  lemma CarriesFacts(s: Seg, iv: Iv, st: Stream, iss: int)
    requires Carries(s, iv, st, iss)
    ensures iv.lo <= iv.hi && s.start == Wrap(iss + iv.lo) && s.dataLen == iv.hi - iv.lo == |s.buf| && s.buf == Slice(st, iv.lo, iv.hi)
  {
  }

  lemma Appended(c: seq<byte>, st: Stream, a: nat, b: nat, d: nat)
    requires a <= b <= d
    ensures c + Slice(st, a, b) + Slice(st, b, d) == c + Slice(st, a, d)
  {
    hide Slice;
    SliceJoin(st, a, b, d);
    RegroupAll(c, Slice(st, a, b), Slice(st, b, d));
  }

  // The segment lies less than 2^31 positions away from `n`.
  predicate InRange(n: nat, iv: Iv) {
    n < iv.lo + HALF && iv.hi < n + HALF
  }

  // How far rcv.nxt has moved can be read off the sequence numbers.
  lemma Moved(iss: int, a: nat, b: nat)
    requires a <= b < a + FULL
    ensures Wrap(Wrap(iss + b) - Wrap(iss + a)) == b - a
  {
    WrapDiff(iss, b, a);
    WrapSmall(b - a);
  }

  // One of the segments at `at` carries position `x`.
  ghost predicate Came(at: seq<Iv>, x: nat) {
    exists j :: 0 <= j < |at| && Within(at[j], x)
  }

  lemma CameMore(at: seq<Iv>, k: nat)
    requires k < |at|
    ensures forall x: nat :: Came(at[..k + 1], x) <==> Came(at[..k], x) || Within(at[k], x)
  {
    forall x: nat
      ensures Came(at[..k + 1], x) <==> Came(at[..k], x) || Within(at[k], x)
    {
      if Came(at[..k], x) {
        var j :| 0 <= j < k && Within(at[..k][j], x);
        assert Within(at[..k + 1][j], x);
      }
      if Within(at[k], x) {
        assert Within(at[..k + 1][k], x);
      }
      if Came(at[..k + 1], x) {
        var j :| 0 <= j < k + 1 && Within(at[..k + 1][j], x);
        assert j < k ==> Within(at[..k][j], x);
      }
    }
  }

  lemma StoppedFirst(ivs: seq<Iv>, iv: Iv)
    requires Stops(ivs, iv)
    ensures iv.lo < iv.hi && Covered(ivs, iv.lo)
  {
    var i :| 0 <= i < |ivs| && ivs[i].lo < iv.lo && iv.hi < ivs[i].hi;
    assert Within(ivs[i], iv.lo);
  }

  /**
   * The first part of copy_data_to_rcvbuf: cuts the end that lies beyond the
   * window and the beginning that has been received before.
   */
  method Trim(s: Seg, nxt: u32, free: nat, ghost n: nat, ghost iv: Iv, ghost st: Stream, ghost iss: int)
    returns (fits: bool, s': Seg)
    requires Carries(s, iv, st, iss) && nxt == Wrap(iss + n) && Near(n, iv) && free < HALF
    ensures fits <==> iv.lo <= n + free
    ensures fits ==> Carries(s', Clip(iv, n, free), st, iss)
  {
    hide Wrap; hide SeqLT; hide Slice;
    fits, s' := true, s;
    var rlast: int := Wrap(s.start + s.dataLen - 1);
    var wlast: int := Wrap(nxt + free - 1);
    WrapPlus(iss + iv.lo, s.dataLen - 1);
    WrapPlus(iss + n, free - 1);
    SeqCompare(iss, n + free - 1, iv.hi - 1);
    ghost var hi := iv.hi;
    if SeqLT(wlast, rlast) {
      var tailCut := Wrap(rlast - wlast);
      WrapDiff(iss, iv.hi - 1, n + free - 1);
      WrapSmall(iv.hi - n - free);
      if |s.buf| < tailCut {
        fits := false;
        return;
      }
      hi := n + free;
      SliceCut(st, iv.lo, hi, iv.hi);
      s' := s.(buf := s.buf[..|s.buf| - tailCut], dataLen := s.dataLen - tailCut);
    }
    SeqCompare(iss, iv.lo, n);
    if SeqLT(s'.start, nxt) {
      var headCut := Wrap(nxt - s'.start);
      WrapDiff(iss, n, iv.lo);
      WrapSmall(n - iv.lo);
      WrapPlus(iss + iv.lo, headCut);
      SliceCut(st, iv.lo, n, hi);
      s' := Seg(Wrap(s'.start + headCut), s'.dataLen - headCut, s'.buf[headCut..]);
    }
  }

  /**
   * The loop of check_tcp_ofo_seq: drops what ends at or before `checkSeq` and
   * takes the bytes from there on out of the segment that contains it, if any.
   */
  method NextInOrder(q: seq<Seg>, checkSeq: u32, ghost ivs: seq<Iv>, ghost n: nat, ghost at: nat, ghost lim: nat, ghost st: Stream, ghost iss: int)
    returns (rest: seq<Seg>, tail: seq<byte>, ghost rivs: seq<Iv>)
    requires checkSeq == Wrap(iss + at) && n <= at <= lim < n + HALF
    requires AllCarry(q, ivs, st, iss) && Gapped(ivs, n, lim)
    ensures at + |tail| <= lim && tail == Slice(st, at, at + |tail|)
    ensures AllCarry(rest, rivs, st, iss) && Gapped(rivs, at + |tail|, lim)
    ensures forall x: nat :: x < at + |tail| || Covered(rivs, x) <==> x < at || Covered(ivs, x)
  {
    hide Wrap; hide SeqLT; hide SeqLE; hide Slice; hide Covered; hide Within;
    rest, tail, rivs := q, [], ivs;
    SliceNone(st, at);
    while rest != []
      invariant AllCarry(rest, rivs, st, iss) && Gapped(rivs, n, lim) && tail == []
      invariant forall x: nat :: x < at || Covered(rivs, x) <==> x < at || Covered(ivs, x)
      decreases |rest|
    {
      var next := rest[0];
      ghost var niv := rivs[0];
      EndOf(next, niv, st, iss);
      SeqCompare(iss, at, niv.lo);
      SeqCompare(iss, niv.hi, at);
      var nextEnd := Wrap(next.start + next.dataLen);
      if SeqLT(checkSeq, next.start) {
        break;
      } else if SeqLE(nextEnd, checkSeq) {
        Passed(rivs, at);
        rest, rivs := rest[1..], rivs[1..];
      } else {
        var tailCount := Wrap(nextEnd - checkSeq);
        WrapDiff(iss, niv.hi, at);
        WrapSmall(niv.hi - at);
        var offSeek := next.dataLen - tailCount;
        SliceCut(st, niv.lo, at, niv.hi);
        Reached(rivs, at);
        tail := next.buf[offSeek..];
        rest, rivs := rest[1..], rivs[1..];
        return;
      }
    }
  }

  // The search loop of tcp_ofo_seq_insert: the first queued segment that does not start earlier.
  method FindPlace(q: seq<Seg>, s: Seg, ghost ivs: seq<Iv>, ghost iv: Iv, ghost n: nat, ghost lim: nat, ghost st: Stream, ghost iss: int)
    returns (i: nat)
    requires AllCarry(q, ivs, st, iss) && Gapped(ivs, n, lim) && Carries(s, iv, st, iss)
    requires n < iv.lo <= lim < n + HALF
    ensures PlaceOf(ivs, i, iv)
  {
    i := 0;
    while i < |q|
      invariant i <= |q|
      invariant forall j :: 0 <= j < i ==> ivs[j].lo < iv.lo
    {
      SeqCompare(iss, iv.lo, ivs[i].lo);
      if SeqLE(s.start, q[i].start) {
        break;
      }
      i := i + 1;
    }
  }

  /**
   * tcp_ofo_seq_insert.  The queue afterwards covers what it covered before and
   * the new segment.  `ok` is false when the assertion in pktbuf_remove_header
   * stops the kernel: exactly when the new segment starts behind the start of a
   * queued one and ends before its end.
   */
  method Insert(q: seq<Seg>, s: Seg, ghost ivs: seq<Iv>, ghost iv: Iv, ghost n: nat, ghost lim: nat, ghost st: Stream, ghost iss: int)
    returns (ok: bool, q': seq<Seg>, ghost ivs': seq<Iv>)
    requires AllCarry(q, ivs, st, iss) && Gapped(ivs, n, lim) && Carries(s, iv, st, iss)
    requires n < iv.lo < iv.hi <= lim < n + HALF
    ensures ok <==> !Contained(ivs, iv)
    ensures ok ==> AllCarry(q', ivs', st, iss) && Gapped(ivs', n, lim)
    ensures ok ==> forall x: nat :: Covered(ivs', x) <==> Covered(ivs, x) || Within(iv, x)
  {
    hide Wrap; hide Slice; hide Covered; hide Within; hide SeqLE; hide Contained; hide AllCarry; hide Gapped; hide PlaceOf;
    q', ivs' := q, ivs;
    var i := FindPlace(q, s, ivs, iv, n, lim, st, iss);
    PlaceFacts(ivs, i, iv, n, lim);
    CarrySplit(q, ivs, i, st, iss);
    var s', rest, iv', rivs := AbsorbNext(s, q[i..], iv, ivs[i..], lim, st, iss);
    if i > 0 {
      CarrySplit(q, ivs, i - 1, st, iss);
      var prev := q[i - 1];
      ghost var p := ivs[i - 1];
      var prevEnd := Wrap(prev.start + prev.dataLen);
      EndOf(prev, p, st, iss);
      SeqCompare(iss, iv.lo, p.hi);
      ContainedInPrev(ivs, i, iv, n, lim);
      if SeqLE(s'.start, prevEnd) {
        var headCut := Wrap(prevEnd - s'.start);
        WrapDiff(iss, p.hi, iv.lo);
        WrapSmall(p.hi - iv.lo);
        ok := headCut <= |s'.buf|;
        if ok {
          var prev' := JoinHead(prev, s', headCut, p, iv', st, iss);
          JoinedPrev(ivs, i, iv, iv', rivs, n, lim);
          CarryJoin(q[..i - 1], ivs[..i - 1], prev', Iv(p.lo, iv'.hi), rest, rivs, st, iss);
          q' := q[..i - 1] + [prev'] + rest;
          ivs' := ivs[..i - 1] + [Iv(p.lo, iv'.hi)] + rivs;
        }
        return;
      }
    }
    NotContainedFirst(ivs, i, iv, n, lim);
    Inserted(ivs, i, iv, iv', rivs, n, lim);
    CarryJoin(q[..i], ivs[..i], s', iv', rest, rivs, st, iss);
    ok := true;
    q' := q[..i] + [s'] + rest;
    ivs' := ivs[..i] + [iv'] + rivs;
  }

  /**
   * The second loop of tcp_ofo_seq_insert: `s` swallows the segments behind it
   * that it reaches, the last one possibly only in part.
   */
  method AbsorbNext(s: Seg, next: seq<Seg>, ghost iv: Iv, ghost ivs: seq<Iv>, ghost lim: nat, ghost st: Stream, ghost iss: int)
    returns (s': Seg, rest: seq<Seg>, ghost iv': Iv, ghost rivs: seq<Iv>)
    requires Carries(s, iv, st, iss) && iv.lo < iv.hi <= lim < iv.lo + HALF
    requires AllCarry(next, ivs, st, iss) && Gapped(ivs, iv.lo - 1, lim)
    ensures Carries(s', iv', st, iss) && iv'.lo == iv.lo && iv.hi <= iv'.hi <= lim
    ensures AllCarry(rest, rivs, st, iss) && Gapped(rivs, iv'.hi, lim)
    ensures SameCover(iv', rivs, iv, ivs)
    ensures (forall i :: 0 <= i < |ivs| ==> iv.hi < ivs[i].lo) ==> iv' == iv
  {
    hide Wrap; hide SeqLT; hide SeqLE; hide Slice; hide SameCover; hide AllCarry; hide Gapped;
    s', rest, iv', rivs := s, next, iv, ivs;
    var segEnd := Wrap(s.start + s.dataLen);
    EndOf(s, iv, st, iss);
    CoverSelf(iv, ivs);
    while rest != []
      invariant s' == s && iv' == iv && AllCarry(rest, rivs, st, iss) && Gapped(rivs, iv.lo - 1, lim)
      invariant SameCover(iv, rivs, iv, ivs)
      invariant (forall i :: 0 <= i < |ivs| ==> iv.hi < ivs[i].lo) ==> rivs == ivs
      decreases |rest|
    {
      var n := rest[0];
      FirstFacts(rest, rivs, iv.lo - 1, lim, st, iss);
      EndOf(n, rivs[0], st, iss);
      SeqCompare(iss, iv.hi, rivs[0].lo);
      SeqCompare(iss, rivs[0].hi, iv.hi);
      var nextEnd := Wrap(n.start + n.dataLen);
      if SeqLT(segEnd, n.start) {
        GappedFrom(rivs, iv.lo - 1, iv.hi, lim);
        return;
      } else if SeqLE(nextEnd, segEnd) {
        DropFirst(iv, rivs);
        CoverTrans(iv, rivs[1..], iv, rivs, iv, ivs);
        rest, rivs := rest[1..], rivs[1..];
      } else {
        s' := JoinTail(s, n, segEnd, nextEnd, iv, rivs[0], st, iss);
        iv' := Iv(iv.lo, rivs[0].hi);
        MergeFirst(iv, rivs);
        CoverTrans(iv', rivs[1..], iv, rivs, iv, ivs);
        rest, rivs := rest[1..], rivs[1..];
        return;
      }
    }
    NothingCarried(rest, rivs, iv.hi, lim, st, iss);
  }

  // The same positions are covered.
  ghost predicate SameCover(a: Iv, as': seq<Iv>, b: Iv, bs: seq<Iv>) {
    forall x: nat :: Within(a, x) || Covered(as', x) <==> Within(b, x) || Covered(bs, x)
  }

  lemma CoverSelf(a: Iv, as': seq<Iv>)
    ensures SameCover(a, as', a, as')
  {
  }

  lemma CoverTrans(a: Iv, as': seq<Iv>, b: Iv, bs: seq<Iv>, c: Iv, cs: seq<Iv>)
    requires SameCover(a, as', b, bs) && SameCover(b, bs, c, cs)
    ensures SameCover(a, as', c, cs)
  {
    hide Within; hide Covered;
  }

  lemma FirstFacts(q: seq<Seg>, ivs: seq<Iv>, base: int, lim: int, st: Stream, iss: int)
    requires AllCarry(q, ivs, st, iss) && Gapped(ivs, base, lim) && q != []
    ensures |ivs| == |q| && Carries(q[0], ivs[0], st, iss) && base < ivs[0].lo < ivs[0].hi <= lim
    ensures AllCarry(q[1..], ivs[1..], st, iss) && Gapped(ivs[1..], base, lim) && Gapped(ivs[1..], ivs[0].hi, lim)
  {
    hide Carries;
  }

  lemma GappedFrom(ivs: seq<Iv>, base: int, from: int, lim: int)
    requires Gapped(ivs, base, lim) && ivs != [] && from < ivs[0].lo
    ensures Gapped(ivs, from, lim)
  {
  }

  lemma NothingCarried(q: seq<Seg>, ivs: seq<Iv>, base: int, lim: int, st: Stream, iss: int)
    requires AllCarry(q, ivs, st, iss) && q == []
    ensures Gapped(ivs, base, lim)
  {
  }

  // What of `n` lies beyond `s` is cut off and joined to `s`.
  method JoinTail(s: Seg, n: Seg, segEnd: u32, nextEnd: u32, ghost iv: Iv, ghost niv: Iv, ghost st: Stream, ghost iss: int)
    returns (s': Seg)
    requires Carries(s, iv, st, iss) && Carries(n, niv, st, iss)
    requires iv.lo <= niv.lo <= iv.hi < niv.hi < iv.lo + FULL
    requires segEnd == Wrap(iss + iv.hi) && nextEnd == Wrap(iss + niv.hi)
    ensures Carries(s', Iv(iv.lo, niv.hi), st, iss)
  {
    hide Wrap; hide Slice;
    var tailAdd := Wrap(nextEnd - segEnd);
    WrapDiff(iss, niv.hi, iv.hi);
    WrapSmall(niv.hi - iv.hi);
    WrapSmall(niv.hi - iv.lo);
    SliceCut(st, niv.lo, iv.hi, niv.hi);
    SliceJoin(st, iv.lo, iv.hi, niv.hi);
    var offSeek := n.dataLen - tailAdd;
    s' := s.(buf := s.buf + n.buf[offSeek..], dataLen := Wrap(s.dataLen + tailAdd));
  }

  // `s`, cut at the front where `prev` already reaches, is joined to `prev`.
  method JoinHead(prev: Seg, s: Seg, headCut: nat, ghost p: Iv, ghost iv: Iv, ghost st: Stream, ghost iss: int)
    returns (prev': Seg)
    requires Carries(prev, p, st, iss) && Carries(s, iv, st, iss)
    requires p.lo < iv.lo <= p.hi <= iv.hi < p.lo + FULL && headCut == p.hi - iv.lo
    ensures Carries(prev', Iv(p.lo, iv.hi), st, iss)
  {
    hide Wrap; hide Slice;
    var prevAdd := Wrap(s.dataLen - headCut);
    WrapSmall(iv.hi - p.hi);
    WrapSmall(iv.hi - p.lo);
    SliceCut(st, iv.lo, p.hi, iv.hi);
    SliceJoin(st, p.lo, p.hi, iv.hi);
    prev' := prev.(buf := prev.buf + s.buf[headCut..], dataLen := Wrap(prev.dataLen + prevAdd));
  }

  // Some queued interval starts before `iv` and ends after it.
  ghost predicate Contained(ivs: seq<Iv>, iv: Iv) {
    exists j :: 0 <= j < |ivs| && ivs[j].lo < iv.lo && iv.hi < ivs[j].hi
  }

  lemma CarrySplit(q: seq<Seg>, ivs: seq<Iv>, i: nat, st: Stream, iss: int)
    requires AllCarry(q, ivs, st, iss) && i <= |ivs|
    ensures |q| == |ivs| && AllCarry(q[..i], ivs[..i], st, iss) && AllCarry(q[i..], ivs[i..], st, iss)
    ensures i < |q| ==> Carries(q[i], ivs[i], st, iss)
  {
    hide Carries;
  }

  lemma CarryJoin(qa: seq<Seg>, ia: seq<Iv>, s: Seg, iv: Iv, qb: seq<Seg>, ib: seq<Iv>, st: Stream, iss: int)
    requires AllCarry(qa, ia, st, iss) && Carries(s, iv, st, iss) && AllCarry(qb, ib, st, iss)
    ensures AllCarry(qa + [s] + qb, ia + [iv] + ib, st, iss)
  {
    hide Carries;
  }

  lemma PlaceFacts(ivs: seq<Iv>, i: nat, iv: Iv, n: nat, lim: nat)
    requires Gapped(ivs, n, lim) && PlaceOf(ivs, i, iv)
    ensures i <= |ivs| && Gapped(ivs[i..], iv.lo - 1, lim)
    ensures i > 0 ==> n < ivs[i - 1].lo < ivs[i - 1].hi <= lim && ivs[i - 1].lo < iv.lo
  {
  }

  ghost predicate PlaceOf(ivs: seq<Iv>, i: nat, iv: Iv) {
    && i <= |ivs|
    && (forall j :: 0 <= j < i ==> ivs[j].lo < iv.lo)
    && (forall j :: i <= j < |ivs| ==> iv.lo <= ivs[j].lo)
  }

  lemma ContainedInPrev(ivs: seq<Iv>, i: nat, iv: Iv, n: nat, lim: nat)
    requires Gapped(ivs, n, lim) && PlaceOf(ivs, i, iv) && i > 0 && iv.lo < iv.hi
    ensures Contained(ivs, iv) <==> iv.hi < ivs[i - 1].hi
    ensures Contained(ivs, iv) ==> iv.lo <= ivs[i - 1].hi && forall j :: i <= j < |ivs| ==> iv.hi < ivs[j].lo
  {
  }

  lemma NotContainedFirst(ivs: seq<Iv>, i: nat, iv: Iv, n: nat, lim: nat)
    requires Gapped(ivs, n, lim) && PlaceOf(ivs, i, iv) && iv.lo < iv.hi
    requires i > 0 ==> ivs[i - 1].hi < iv.lo
    ensures !Contained(ivs, iv)
  {
  }

  lemma Inserted(ivs: seq<Iv>, i: nat, iv: Iv, iv': Iv, rivs: seq<Iv>, n: nat, lim: nat)
    requires Gapped(ivs, n, lim) && PlaceOf(ivs, i, iv) && n < iv.lo < iv.hi
    requires i > 0 ==> ivs[i - 1].hi < iv.lo
    requires iv'.lo == iv.lo && iv.hi <= iv'.hi <= lim && Gapped(rivs, iv'.hi, lim)
    requires SameCover(iv', rivs, iv, ivs[i..])
    ensures var q := ivs[..i] + [iv'] + rivs;
            Gapped(q, n, lim) && forall x: nat :: Covered(q, x) <==> Covered(ivs, x) || Within(iv, x)
  {
    var q := ivs[..i] + [iv'] + rivs;
    assert ivs == ivs[..i] + ivs[i..];
    forall x: nat
      ensures Covered(q, x) <==> Covered(ivs, x) || Within(iv, x)
    {
      hide Covered; hide Within;
      CoveredJoin(ivs[..i], ivs[i..], x);
      CoveredJoin(ivs[..i] + [iv'], rivs, x);
      CoveredJoin(ivs[..i], [iv'], x);
      CoveredOne(iv', x);
    }
  }

  lemma JoinedPrev(ivs: seq<Iv>, i: nat, iv: Iv, iv': Iv, rivs: seq<Iv>, n: nat, lim: nat)
    requires Gapped(ivs, n, lim) && PlaceOf(ivs, i, iv) && i > 0 && iv.lo < iv.hi
    requires iv.lo <= ivs[i - 1].hi <= iv'.hi
    requires iv'.lo == iv.lo && iv.hi <= iv'.hi <= lim && Gapped(rivs, iv'.hi, lim)
    requires SameCover(iv', rivs, iv, ivs[i..])
    ensures var q := ivs[..i - 1] + [Iv(ivs[i - 1].lo, iv'.hi)] + rivs;
            Gapped(q, n, lim) && forall x: nat :: Covered(q, x) <==> Covered(ivs, x) || Within(iv, x)
  {
    var p := ivs[i - 1];
    var m := Iv(p.lo, iv'.hi);
    var q := ivs[..i - 1] + [m] + rivs;
    assert ivs == (ivs[..i - 1] + [p]) + ivs[i..];
    forall x: nat
      ensures Covered(q, x) <==> Covered(ivs, x) || Within(iv, x)
    {
      CoveredJoin(ivs[..i - 1] + [p], ivs[i..], x);
      CoveredJoin(ivs[..i - 1], [p], x);
      CoveredOne(p, x);
      CoveredJoin(ivs[..i - 1] + [m], rivs, x);
      CoveredJoin(ivs[..i - 1], [m], x);
      CoveredOne(m, x);
      assert Within(m, x) <==> Within(p, x) || Within(iv', x);
      hide Covered; hide Within;
    }
  }

  lemma DropFirst(iv: Iv, ivs: seq<Iv>)
    requires ivs != [] && iv.lo <= ivs[0].lo && ivs[0].hi <= iv.hi
    ensures SameCover(iv, ivs[1..], iv, ivs)
  {
    assert ivs == [ivs[0]] + ivs[1..];
    forall x: nat
      ensures Within(iv, x) || Covered(ivs[1..], x) <==> Within(iv, x) || Covered(ivs, x)
    {
      CoveredJoin([ivs[0]], ivs[1..], x);
      CoveredOne(ivs[0], x);
    }
  }

  lemma MergeFirst(iv: Iv, ivs: seq<Iv>)
    requires ivs != [] && iv.lo <= ivs[0].lo <= iv.hi < ivs[0].hi
    ensures SameCover(Iv(iv.lo, ivs[0].hi), ivs[1..], iv, ivs)
  {
    assert ivs == [ivs[0]] + ivs[1..];
    forall x: nat
      ensures Within(Iv(iv.lo, ivs[0].hi), x) || Covered(ivs[1..], x) <==> Within(iv, x) || Covered(ivs, x)
    {
      CoveredJoin([ivs[0]], ivs[1..], x);
      CoveredOne(ivs[0], x);
    }
  }

  lemma RegroupAll(a: seq<byte>, b: seq<byte>, c: seq<byte>)
    ensures a + b + c == a + (b + c)
  {
  }

  lemma Passed(ivs: seq<Iv>, at: nat)
    requires ivs != [] && ivs[0].hi <= at
    ensures forall x: nat :: x < at || Covered(ivs[1..], x) <==> x < at || Covered(ivs, x)
  {
    assert ivs == [ivs[0]] + ivs[1..];
    forall x: nat
      ensures x < at || Covered(ivs[1..], x) <==> x < at || Covered(ivs, x)
    {
      CoveredJoin([ivs[0]], ivs[1..], x);
      CoveredOne(ivs[0], x);
    }
  }

  lemma Reached(ivs: seq<Iv>, at: nat)
    requires ivs != [] && ivs[0].lo <= at < ivs[0].hi
    ensures forall x: nat :: x < ivs[0].hi || Covered(ivs[1..], x) <==> x < at || Covered(ivs, x)
  {
    assert ivs == [ivs[0]] + ivs[1..];
    forall x: nat
      ensures x < ivs[0].hi || Covered(ivs[1..], x) <==> x < at || Covered(ivs, x)
    {
      CoveredJoin([ivs[0]], ivs[1..], x);
      CoveredOne(ivs[0], x);
    }
  }

  // The kernel is stopped by bytes 12 to 14 after bytes 10 to 19.
  method InsertStopsHappens() returns (ok: bool, q: seq<Seg>)
    ensures !ok
  {
    ghost var st: Stream := (x: nat) => 0;
    var held, new' := Seg(10, 10, seq(10, i => 0)), Seg(12, 3, [0, 0, 0]);
    ghost var ivs, iv := [Iv(10, 20)], Iv(12, 15);
    assert held.buf == Slice(st, 10, 20) && new'.buf == Slice(st, 12, 15);
    assert Wrap(10) == 10 && Wrap(12) == 12;
    assert Contained(ivs, iv) by {
      assert ivs[0].lo < iv.lo && iv.hi < ivs[0].hi;
    }
    hide Slice; hide Contained;
    ghost var ivs';
    ok, q, ivs' := Insert([held], new', ivs, iv, 0, 100, st, 0);
  }

  // With a window of 4 bytes, byte 6 of the stream moves rcv.nxt back from 100 to 99.
  method BehindWindowHappens() returns (r: Receiver)
    ensures r.nxt == 99
  {
    var ring := new Ring(4);
    ghost var st: Stream := (x: nat) => 0;
    r := new Receiver(ring, st, 100);
    assert [0] == Slice(st, 6, 7) && Wrap(106) == 106 && Wrap(99) == 99;
    hide Slice;
    var ok := r.DataIn(Seg(106, 1, [0]), Iv(6, 7));
  }

  // Bytes 8 to 19 bring byte 12, but with the window from 10 to 13 they are turned away.
  lemma SpanningHappens()
    ensures !SeqAcceptable(10, 4, 8, 12) && Spans(10, 4, Iv(8, 20)) && Within(Iv(8, 20), 12) && 10 <= 12 < 10 + 4
  {
    assert Wrap(13) == 13 && Wrap(19) == 19;
  }
}
