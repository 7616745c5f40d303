/**
 * Sequence numbers of net/tcp.h and segments cut from one sender's stream.  A
 * byte of the stream has an absolute position; on the wire only its position
 * modulo 2^32, shifted by the initial sequence number, is visible.
 */
module TcpStream {
  import opened Common
  import opened TcpRing

  const HALF: int := 0x8000_0000
  const FULL: int := 0x1_0000_0000

  type u32 = x: int | 0 <= x < 0x1_0000_0000

  function Wrap(x: int): u32 {
    x % FULL
  }

  // TCP_SEQ_LT and TCP_SEQ_LE: the sign of a 32-bit difference.
  predicate SeqLT(a: u32, b: u32) {
    Wrap(a - b) >= HALF
  }

  predicate SeqLE(a: u32, b: u32) {
    a == b || Wrap(a - b) >= HALF
  }

  // Within half the number space, sequence numbers compare as positions do.
  lemma SeqCompare(iss: int, a: int, b: int)
    requires -HALF <= a - b < HALF
    ensures SeqLT(Wrap(iss + a), Wrap(iss + b)) <==> a < b
    ensures SeqLE(Wrap(iss + a), Wrap(iss + b)) <==> a <= b
  {
    WrapDiff(iss, a, b);
    if a == b {
    } else if a < b {
      assert Wrap(a - b) == a - b + FULL;
    } else {
      assert Wrap(a - b) == a - b;
    }
  }

  lemma WrapDiff(iss: int, a: int, b: int)
    ensures Wrap(Wrap(iss + a) - Wrap(iss + b)) == Wrap(a - b)
  {
    var x, y := iss + a, iss + b;
    var d := Wrap(x) - Wrap(y);
    assert d - (x - y) == FULL * (y / FULL - x / FULL);
    WrapShift(x - y, y / FULL - x / FULL);
  }

  lemma WrapShift(x: int, k: int)
    ensures Wrap(x + FULL * k) == Wrap(x)
  {
  }

  lemma WrapSmall(x: int)
    requires 0 <= x < FULL
    ensures Wrap(x) == x
  {
  }

  lemma WrapPlus(x: int, y: int)
    ensures Wrap(Wrap(x) + y) == Wrap(x + y)
  {
    assert Wrap(x) + y == x + y + FULL * (-(x / FULL));
    WrapShift(x + y, -(x / FULL));
  }

  lemma WrapSame(iss: int, a: int, b: int)
    requires -FULL < a - b < FULL
    ensures Wrap(iss + a) == Wrap(iss + b) <==> a == b
  {
    WrapDiff(iss, a, b);
  }

  type Stream = nat -> byte

  ghost function Slice(st: Stream, lo: nat, hi: nat): (s: seq<byte>)
    requires lo <= hi
    ensures |s| == hi - lo
  {
    seq(hi - lo, i requires 0 <= i < hi - lo => st(lo + i))
  }

  lemma SliceJoin(st: Stream, a: nat, b: nat, c: nat)
    requires a <= b <= c
    ensures Slice(st, a, b) + Slice(st, b, c) == Slice(st, a, c)
  {
  }

  lemma SliceNone(st: Stream, a: nat)
    ensures Slice(st, a, a) == []
  {
  }

  lemma SliceCut(st: Stream, a: nat, b: nat, c: nat)
    requires a <= b <= c
    ensures Slice(st, a, c)[b - a..] == Slice(st, b, c)
    ensures Slice(st, a, c)[..b - a] == Slice(st, a, b)
  {
  }

  // A received piece of data: its sequence number, its length field and its bytes.
  datatype Seg = Seg(start: u32, dataLen: u32, buf: seq<byte>)

  // Positions lo, lo + 1, ..., hi - 1 of the stream.
  datatype Iv = Iv(lo: nat, hi: nat)

  ghost predicate Carries(s: Seg, iv: Iv, st: Stream, iss: int) {
    && iv.lo <= iv.hi
    && s.start == Wrap(iss + iv.lo) && s.dataLen == iv.hi - iv.lo && s.buf == Slice(st, iv.lo, iv.hi)
  }

  lemma EndOf(s: Seg, iv: Iv, st: Stream, iss: int)
    requires Carries(s, iv, st, iss)
    ensures Wrap(s.start + s.dataLen) == Wrap(iss + iv.hi)
  {
    WrapPlus(iss + iv.lo, s.dataLen);
  }

  ghost predicate Within(iv: Iv, x: nat) {
    iv.lo <= x < iv.hi
  }

  ghost predicate Covered(ivs: seq<Iv>, x: nat) {
    exists i :: 0 <= i < |ivs| && Within(ivs[i], x)
  }

  lemma CoveredJoin(a: seq<Iv>, b: seq<Iv>, x: nat)
    ensures Covered(a + b, x) <==> Covered(a, x) || Covered(b, x)
  {
    if Covered(a, x) {
      var i :| 0 <= i < |a| && Within(a[i], x);
      assert Within((a + b)[i], x);
    }
    if Covered(b, x) {
      var i :| 0 <= i < |b| && Within(b[i], x);
      assert Within((a + b)[|a| + i], x);
    }
  }

  lemma CoveredOne(iv: Iv, x: nat)
    ensures Covered([iv], x) <==> Within(iv, x)
  {
    if Within(iv, x) {
      assert Within([iv][0], x);
    }
  }

  // Non-empty intervals above `base` and up to `lim`, in order and with a gap between any two.
  ghost predicate Gapped(ivs: seq<Iv>, base: int, lim: int) {
    && (forall i :: 0 <= i < |ivs| ==> base < ivs[i].lo < ivs[i].hi <= lim)
    && (forall i, j :: 0 <= i < j < |ivs| ==> ivs[i].hi < ivs[j].lo)
  }

  ghost predicate AllCarry(q: seq<Seg>, ivs: seq<Iv>, st: Stream, iss: int) {
    |q| == |ivs| && forall i :: 0 <= i < |q| ==> Carries(q[i], ivs[i], st, iss)
  }
}
