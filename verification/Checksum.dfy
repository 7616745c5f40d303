/**
 * The Internet checksum of net/nettool.c over packet buffers, against section 2
 * of RFC 1071, and the TCP checksum that send_out stamps and tcp_in checks.
 */
module Checksum {
  import opened Common
  import opened PktBlocks

  // A byte in the upper half of a 16-bit word.
  function High(b: byte): nat {
    var x: int := b;
    256 * x
  }

  // Bytes at odd positions count 256 times: the sum of little-endian 16-bit words.
  function Weigh(offset: int, s: seq<byte>): (w: nat)
    ensures w <= 65280 * |s|
    decreases |s|
  {
    if s == [] then 0 else (if offset % 2 == 0 then s[0] else High(s[0])) + Weigh(offset + 1, s[1..])
  }

  // The folding loop of checksum16.
  function Fold(n: nat): (r: nat)
    ensures r <= 65535
    decreases n
  {
    if n / 65536 == 0 then n else Fold(n / 65536 + n % 65536)
  }

  // Folding is the remainder modulo 65535, with 65535 for the multiples that are not 0.
  lemma {:induction false} FoldIs(n: nat)
    ensures Fold(n) == if n == 0 then 0 else (n - 1) % 65535 + 1
    decreases n
  {
    if n / 65536 != 0 {
      var m := n / 65536 + n % 65536;
      FoldIs(m);
      assert n - 1 == (m - 1) + 65535 * (n / 65536);
      ModShift(m - 1, n / 65536);
    }
  }

  lemma ModShift(a: nat, k: nat)
    ensures (a + 65535 * k) % 65535 == a % 65535
  {
  }

  // Folding in between does not matter.
  lemma FoldPlus(a: nat, b: nat)
    ensures Fold(Fold(a) + b) == Fold(a + b)
  {
    hide Fold;
    FoldIs(a);
    FoldIs(Fold(a) + b);
    FoldIs(a + b);
    if a > 0 {
      var k := (a - 1) / 65535;
      assert a - 1 == 65535 * k + (a - 1) % 65535;
      assert a + b - 1 == (Fold(a) + b - 1) + 65535 * k;
      ModShift(Fold(a) + b - 1, k);
    }
  }

  lemma {:induction false} WeighJoin(offset: int, a: seq<byte>, b: seq<byte>)
    ensures Weigh(offset, a + b) == Weigh(offset, a) + Weigh(offset + |a|, b)
    decreases |a|
  {
    if a == [] {
      assert a + b == b;
    } else {
      WeighJoin(offset + 1, a[1..], b);
      assert (a + b)[1..] == a[1..] + b;
    }
  }

  lemma {:induction false} WeighParity(x: int, y: int, s: seq<byte>)
    requires x % 2 == y % 2
    ensures Weigh(x, s) == Weigh(y, s)
    decreases |s|
  {
    if s != [] {
      WeighParity(x + 1, y + 1, s[1..]);
    }
  }

  // One's complement addition of 16-bit words, with the carry added at the other end.
  function OnesAdd(a: nat, b: nat): nat {
    if a + b > 65535 then a + b - 65535 else a + b
  }

  // The one's complement sum of section 2 of RFC 1071, over pairs of bytes, an odd last byte padded with zero.
  function OnesSum(s: seq<byte>): (r: nat)
    ensures r <= 65535
  {
    if s == [] then 0
    else if |s| == 1 then s[0]
    else OnesAdd(s[0] + High(s[1]), OnesSum(s[2..]))
  }

  lemma OnesAddIs(a: nat, b: nat)
    requires a <= 65535 && b <= 65535
    ensures OnesAdd(a, b) == Fold(a + b)
  {
    FoldIs(a + b);
    hide Fold;
  }

  lemma {:induction false} FoldIsOnesSum(s: seq<byte>)
    ensures Fold(Weigh(0, s)) == OnesSum(s)
    decreases |s|
  {
    hide Weigh; hide Fold; hide OnesAdd;
    if |s| <= 1 {
      WeighShort(s);
      FoldSmall(OnesSum(s));
    } else {
      var w: nat := s[0] + High(s[1]);
      WeighTwo(s);
      FoldIsOnesSum(s[2..]);
      FoldSmall(w);
      FoldAdd(w, Weigh(0, s[2..]));
    }
  }

  lemma WeighShort(s: seq<byte>)
    requires |s| <= 1
    ensures Weigh(0, s) == if s == [] then 0 else s[0]
  {
    assert |s| == 1 ==> s[1..] == [];
  }

  lemma WeighTwo(s: seq<byte>)
    requires |s| > 1
    ensures Weigh(0, s) == s[0] + High(s[1]) + Weigh(0, s[2..])
  {
    assert s[1..][1..] == s[2..];
    assert Weigh(0, s) == s[0] + Weigh(1, s[1..]);
    assert Weigh(1, s[1..]) == High(s[1]) + Weigh(2, s[2..]);
    WeighParity(2, 0, s[2..]);
  }

  // checksum16 without the final complement.
  method Checksum16(offset: nat, buf: seq<byte>, pre: nat) returns (sum: nat)
    requires |buf| <= 65535 && pre <= 65535 && (offset % 2 == 1 ==> buf != [])
    ensures sum == Fold(pre + Weigh(offset, buf)) && sum <= 65535
  {
    hide Weigh; hide Fold;
    WeighNone(offset);
    sum := pre;
    var i := 0;
    if offset % 2 == 1 {
      WeighStep(offset, buf, 0);
      sum := sum + High(buf[0]);
      i := 1;
    }
    while |buf| - i > 1
      invariant 0 <= i <= |buf| && (offset + i) % 2 == 0 && sum == pre + Weigh(offset, buf[..i])
    {
      WeighStep(offset, buf, i);
      WeighStep(offset, buf, i + 1);
      sum := sum + (buf[i] + High(buf[i + 1]));
      // The 32-bit sum does not overflow.
      assert sum < 0x1_0000_0000;
      i := i + 2;
    }
    if |buf| - i > 0 {
      WeighStep(offset, buf, i);
      sum := sum + buf[i];
      i := i + 1;
    }
    assert buf[..i] == buf;
    sum := FoldLoop(sum);
  }

  // The loop at the end of checksum16.
  method FoldLoop(n: nat) returns (sum: nat)
    ensures sum == Fold(n) && sum <= 65535
  {
    sum := n;
    while sum / 65536 != 0
      invariant Fold(sum) == Fold(n)
      decreases sum
    {
      sum := sum / 65536 + sum % 65536;
    }
  }

  lemma WeighNone(offset: int)
    ensures Weigh(offset, []) == 0
  {
  }

  lemma WeighStep(offset: int, s: seq<byte>, i: nat)
    requires i < |s|
    ensures s[..i] <= s && Weigh(offset, s[..i + 1]) == Weigh(offset, s[..i]) + if (offset + i) % 2 == 0 then s[i] else High(s[i])
    ensures i == 0 ==> Weigh(offset, s[..0]) == 0
  {
    assert s[..i + 1] == s[..i] + [s[i]];
    WeighJoin(offset, s[..i], [s[i]]);
    assert [s[i]][1..] == [];
  }

  /**
   * pktbuf_checksum16 without the final complement: the layout in blocks, odd
   * lengths included, does not show in the result.
   */
  method BufSum(b: Buf, size: nat, pre: nat) returns (sum: nat, b': Buf)
    requires Placed(b) && pre <= 65535
    ensures Placed(b') && b'.blks == b.blks && b'.total == b.total
    ensures b.total - b.pos < size ==> sum == 0 && b' == b
    ensures b.total - b.pos >= size ==> sum == Fold(pre + Weigh(0, Flat(b.blks)[b.pos..b.pos + size])) && b'.pos == b.pos + size
    ensures sum <= 65535
  {
    hide Weigh; hide Fold; hide Placed; hide Flat;
    PlacedFacts(b);
    if b.total - b.pos < size {
      return 0, b;
    }
    ghost var f := Flat(b.blks);
    sum, b' := pre, b;
    var offset := 0;
    WeighNone(0);
    FoldSmall(pre);
    assert f[b.pos..b.pos] == [];
    while offset < size
      invariant 0 <= offset <= size && Placed(b') && b'.blks == b.blks && b'.total == b.total && b'.pos == b.pos + offset
      invariant sum == Fold(pre + Weigh(0, f[b.pos..b'.pos])) && sum <= 65535
    {
      var chunk, next := ReadChunk(b', size - offset);
      ghost var before := f[b.pos..b'.pos];
      var part := Checksum16(offset, chunk, sum);
      assert f[b.pos..next.pos] == before + chunk;
      WeighJoin(0, before, chunk);
      FoldPlus(pre + Weigh(0, before), Weigh(offset, chunk));
      sum, b', offset := part, next, offset + |chunk|;
    }
  }

  lemma FoldSmall(n: nat)
    requires n <= 65535
    ensures Fold(n) == n
  {
  }

  // The TCP pseudo header: addresses, a zero, the protocol and the length in network order.
  function Pseudo(src: seq<byte>, dst: seq<byte>, protocol: byte, len: nat): (p: seq<byte>)
    requires |src| == |dst| == 4
    ensures |p| == 12
  {
    src + dst + Pair(0, protocol) + NetBytes(len)
  }

  function Pair(x: byte, y: byte): (s: seq<byte>)
    ensures |s| == 2
  {
    [x, y]
  }

  // x_htons: a length as two bytes, the upper one first.
  function NetBytes(n: nat): (s: seq<byte>)
    ensures |s| == 2
  {
    Pair((n / 256) % 256, n % 256)
  }

  // The checksum as a function of the byte string.
  function Peso(src: seq<byte>, dst: seq<byte>, protocol: byte, f: seq<byte>): nat
    requires |src| == |dst| == 4
  {
    65535 - Fold(PesoSum(src, dst, protocol, f))
  }

  function PesoSum(src: seq<byte>, dst: seq<byte>, protocol: byte, f: seq<byte>): nat
    requires |src| == |dst| == 4
  {
    Weigh(0, Pseudo(src, dst, protocol, |f|) + f)
  }

  /**
   * checksum_peso: the checksum of a buffer is that of its byte string, whatever
   * its blocks.  In network byte order it is the complement of the one's complement
   * sum of the words of both addresses, the protocol, the length and the data.
   */
  method ChecksumPeso(src: seq<byte>, dst: seq<byte>, protocol: byte, b: Buf) returns (r: nat)
    requires |src| == |dst| == 4 && Ok(b)
    ensures r == Peso(src, dst, protocol, Flat(b.blks)) <= 65535
    ensures var f := Flat(b.blks);
            |f| <= 65535 ==>
              Swap(r) == 65535 - OnesAdd(OnesAdd(OnesAdd(NetSum(src), NetSum(dst)), OnesAdd(protocol, |f|)), NetSum(f))
  {
    hide Weigh; hide Fold; hide Flat; hide Placed; hide OnesAdd; hide NetSum; hide Swap; hide Pair; hide NetBytes; hide PesoSum;
    var len := NetBytes(b.total);
    var mid := Pair(0, protocol);
    ghost var f := Flat(b.blks);
    var sum := Checksum16(0, src, 0);
    var sum1 := Checksum16(4, dst, sum);
    var sum2 := Checksum16(8, mid, sum1);
    var sum3 := Checksum16(10, len, sum2);
    var b0 := Reset(b);
    var sum4, b1 := BufSum(b0, b.total, sum3);
    FoldPlus(Weigh(0, src), Weigh(4, dst));
    FoldPlus(Weigh(0, src) + Weigh(4, dst), Weigh(8, mid));
    FoldPlus(Weigh(0, src) + Weigh(4, dst) + Weigh(8, mid), Weigh(10, len));
    FoldPlus(Weigh(0, src) + Weigh(4, dst) + Weigh(8, mid) + Weigh(10, len), Weigh(0, f));
    PesoWeigh(src, dst, protocol, f);
    assert f[0..b.total] == f;
    r := 65535 - sum4;
    if |f| <= 65535 {
      PesoInNetOrder(src, dst, protocol, f);
    }
  }

  // The two bytes of a 16-bit number exchanged.
  function Swap(x: nat): nat {
    x % 256 * 256 + x / 256
  }

  // The one's complement sum of the 16-bit words of a string in network byte order, an odd last byte padded with zero.
  function NetSum(s: seq<byte>): (r: nat)
    ensures r <= 65535
  {
    if s == [] then 0
    else if |s| == 1 then High(s[0])
    else OnesAdd(High(s[0]) + s[1], NetSum(s[2..]))
  }

  // The same without carrying.
  function NetTotal(s: seq<byte>): nat {
    if s == [] then 0
    else if |s| == 1 then High(s[0])
    else High(s[0]) + s[1] + NetTotal(s[2..])
  }

  lemma FoldAdd(a: nat, b: nat)
    ensures OnesAdd(Fold(a), Fold(b)) == Fold(a + b)
  {
    hide Fold; hide OnesAdd;
    OnesAddIs(Fold(a), Fold(b));
    FoldPlus(a, Fold(b));
    FoldPlus(b, a);
  }

  lemma {:induction false} NetSumIs(s: seq<byte>)
    ensures NetSum(s) == Fold(NetTotal(s))
    decreases |s|
  {
    hide Fold; hide OnesAdd;
    if |s| <= 1 {
      FoldSmall(NetTotal(s));
    } else {
      var w: nat := High(s[0]) + s[1];
      NetSumIs(s[2..]);
      FoldSmall(w);
      FoldAdd(w, NetTotal(s[2..]));
    }
  }

  // Exchanging the bytes of every word multiplies the sum by 256, modulo 65535.
  ghost predicate Turned(w: nat, t: nat) {
    (w == 0 <==> t == 0) && exists k: nat :: 256 * w == t + 65535 * k
  }

  lemma TurnedOne(x: byte, y: byte)
    ensures Turned(x + High(y), High(x) + y)
  {
    var k: nat := y;
    assert 256 * (x + High(y)) == High(x) + y + 65535 * k;
  }

  lemma TurnedPlus(w: nat, t: nat, w': nat, t': nat)
    requires Turned(w, t) && Turned(w', t')
    ensures Turned(w + w', t + t')
  {
    var k: nat :| 256 * w == t + 65535 * k;
    var k': nat :| 256 * w' == t' + 65535 * k';
    assert 256 * (w + w') == t + t' + 65535 * (k + k');
  }

  lemma {:induction false} WeighTurned(s: seq<byte>)
    ensures Turned(Weigh(0, s), NetTotal(s))
    decreases |s|
  {
    if s == [] {
      TurnedOne(0, 0);
    } else if |s| == 1 {
      TurnedOne(s[0], 0);
      assert s[1..] == [];
    } else {
      WeighTwo(s);
      WeighTurned(s[2..]);
      TurnedOne(s[0], s[1]);
      hide Turned; hide Weigh;
      TurnedPlus(s[0] + High(s[1]), High(s[0]) + s[1], Weigh(0, s[2..]), NetTotal(s[2..]));
    }
  }

  // The byte order does not matter: the sum in the other order is the sum with its bytes exchanged.
  lemma FoldTurned(w: nat, t: nat)
    requires Turned(w, t)
    ensures Swap(Fold(w)) == Fold(t)
  {
    hide Fold;
    FoldIs(w);
    FoldIs(t);
    if w == 0 {
      assert Swap(0) == 0;
    } else {
      var k: nat :| 256 * w == t + 65535 * k;
      var f := Fold(w);
      SwapIs(f);
      var j: int := (w - 1) / 65535;
      assert w == f + 65535 * j;
      var h := f / 256;
      assert 256 * f == Swap(f) + 65535 * h;
      assert t == Swap(f) + 65535 * (h + 256 * j - k);
      SameRest(t, Swap(f), h + 256 * j - k);
    }
  }

  lemma SwapIs(x: nat)
    requires 0 < x <= 65535
    ensures 0 < Swap(x) <= 65535 && 256 * x == Swap(x) + 65535 * (x / 256)
  {
    var h, l := x / 256, x % 256;
    assert x == 256 * h + l;
  }

  lemma SameRest(t: int, u: int, k: int)
    requires t > 0 && 0 < u <= 65535 && t == u + 65535 * k
    ensures (t - 1) % 65535 + 1 == u
  {
    assert t - 1 == (u - 1) + 65535 * k;
  }

  lemma SwapComplement(x: nat)
    requires x <= 65535
    ensures Swap(65535 - x) == 65535 - Swap(x)
  {
    var h, l := x / 256, x % 256;
    assert x == 256 * h + l;
    assert 65535 - x == 256 * (255 - h) + (255 - l);
  }

  // The parts of the pseudo header and the data, weighed one by one.
  lemma PesoWeigh(src: seq<byte>, dst: seq<byte>, protocol: byte, f: seq<byte>)
    requires |src| == |dst| == 4
    ensures PesoSum(src, dst, protocol, f) ==
            Weigh(0, src) + Weigh(4, dst) + Weigh(8, Pair(0, protocol)) + Weigh(10, NetBytes(|f|)) + Weigh(0, f)
  {
    hide Weigh; hide Pair; hide NetBytes;
    WeighFive(src, dst, Pair(0, protocol), NetBytes(|f|), f);
  }

  lemma WeighFive(a: seq<byte>, b: seq<byte>, c: seq<byte>, d: seq<byte>, e: seq<byte>)
    requires |a| == |b| == 4 && |c| == |d| == 2
    ensures Weigh(0, a + b + c + d + e) == Weigh(0, a) + Weigh(4, b) + Weigh(8, c) + Weigh(10, d) + Weigh(0, e)
  {
    hide Weigh;
    WeighJoin(0, a, b);
    WeighJoin(0, a + b, c);
    WeighJoin(0, a + b + c, d);
    WeighJoin(0, a + b + c + d, e);
    WeighParity(12, 0, e);
  }

  lemma {:induction false} PairTurned(offset: int, x: byte, y: byte)
    requires offset % 2 == 0
    ensures Turned(Weigh(offset, Pair(x, y)), High(x) + y)
  {
    assert [x, y][1..] == [y] && [y][1..] == [];
    TurnedOne(x, y);
  }

  lemma LengthTurned(n: nat)
    requires n <= 65535
    ensures Turned(Weigh(10, NetBytes(n)), n)
  {
    hide Turned; hide Weigh; hide Pair;
    PairTurned(10, (n / 256) % 256, n % 256);
    LengthWord(n);
  }

  lemma PesoTurned(src: seq<byte>, dst: seq<byte>, protocol: byte, f: seq<byte>)
    requires |src| == |dst| == 4 && |f| <= 65535
    ensures Turned(PesoSum(src, dst, protocol, f), NetTotal(src) + NetTotal(dst) + (protocol + |f|) + NetTotal(f))
  {
    hide Weigh; hide Turned; hide NetTotal; hide PesoSum; hide Pair; hide NetBytes;
    PesoWeigh(src, dst, protocol, f);
    WeighParity(4, 0, dst);
    PairTurned(8, 0, protocol);
    LengthTurned(|f|);
    WeighTurned(src);
    WeighTurned(dst);
    WeighTurned(f);
    FiveTurned(Weigh(0, src), NetTotal(src), Weigh(0, dst), NetTotal(dst), Weigh(8, Pair(0, protocol)), protocol,
               Weigh(10, NetBytes(|f|)), |f|, Weigh(0, f), NetTotal(f));
  }

  lemma FiveTurned(a: nat, a': nat, b: nat, b': nat, c: nat, c': nat, d: nat, d': nat, e: nat, e': nat)
    requires Turned(a, a') && Turned(b, b') && Turned(c, c') && Turned(d, d') && Turned(e, e')
    ensures Turned(a + b + c + d + e, a' + b' + (c' + d') + e')
  {
    hide Turned;
    TurnedPlus(a, a', b, b');
    TurnedPlus(c, c', d, d');
    TurnedPlus(a + b, a' + b', c + d, c' + d');
    TurnedPlus(a + b + (c + d), a' + b' + (c' + d'), e, e');
    assert a + b + (c + d) + e == a + b + c + d + e;
  }

  lemma LengthWord(n: nat)
    requires n <= 65535
    ensures High((n / 256) % 256) + n % 256 == n
  {
  }

  /**
   * The checksum in network byte order: the complement of the one's complement sum
   * of the words of both addresses, the protocol, the length and the data.
   */
  lemma PesoInNetOrder(src: seq<byte>, dst: seq<byte>, protocol: byte, f: seq<byte>)
    requires |src| == |dst| == 4 && |f| <= 65535
    ensures Swap(Peso(src, dst, protocol, f)) ==
            65535 - OnesAdd(OnesAdd(OnesAdd(NetSum(src), NetSum(dst)), OnesAdd(protocol, |f|)), NetSum(f))
  {
    hide Weigh; hide Fold; hide Swap; hide PesoSum; hide Turned; hide OnesAdd; hide NetSum; hide NetTotal;
    PesoTurned(src, dst, protocol, f);
    ComplementTurned(PesoSum(src, dst, protocol, f), NetTotal(src) + NetTotal(dst) + (protocol + |f|) + NetTotal(f));
    NetParts(src, dst, protocol, |f|, f);
  }

  lemma ComplementTurned(w: nat, t: nat)
    requires Turned(w, t)
    ensures Swap(65535 - Fold(w)) == 65535 - Fold(t)
  {
    hide Fold; hide Swap; hide Turned;
    FoldTurned(w, t);
    SwapComplement(Fold(w));
  }

  lemma NetParts(src: seq<byte>, dst: seq<byte>, x: nat, y: nat, f: seq<byte>)
    requires x <= 65535 && y <= 65535
    ensures OnesAdd(OnesAdd(OnesAdd(NetSum(src), NetSum(dst)), OnesAdd(x, y)), NetSum(f)) ==
            Fold(NetTotal(src) + NetTotal(dst) + (x + y) + NetTotal(f))
  {
    hide Fold; hide OnesAdd; hide NetSum; hide NetTotal;
    NetSumIs(src);
    NetSumIs(dst);
    NetSumIs(f);
    OnesAddIs(x, y);
    FourFolds(NetTotal(src), NetTotal(dst), x + y, NetTotal(f));
  }

  lemma FourFolds(a: nat, b: nat, c: nat, d: nat)
    ensures OnesAdd(OnesAdd(OnesAdd(Fold(a), Fold(b)), Fold(c)), Fold(d)) == Fold(a + b + c + d)
  {
    hide Fold; hide OnesAdd;
    FoldAdd(a, b);
    FoldAdd(a + b, c);
    FoldAdd(a + b + c, d);
  }

  // The two bytes of the checksum field of a TCP header, at offset 16.
  function Stamped(f: seq<byte>, c: nat): seq<byte>
    requires |f| >= 18 && c <= 65535
  {
    f[..16] + [c % 256, c / 256] + f[18..]
  }

  /**
   * What send_out stamps on a segment whose checksum field is zero makes the
   * check in tcp_in succeed on every buffer that holds the same bytes.
   */
  lemma StampedPasses(src: seq<byte>, dst: seq<byte>, protocol: byte, f: seq<byte>)
    requires |src| == |dst| == 4 && |f| >= 18 && f[16] == f[17] == 0
    ensures Peso(src, dst, protocol, Stamped(f, Peso(src, dst, protocol, f))) == 0
  {
    hide Weigh; hide Fold;
    var c := Peso(src, dst, protocol, f);
    var p := Pseudo(src, dst, protocol, |f|);
    var a, z := p + f[..16], f[18..];
    assert p + f == a + [0, 0] + z;
    assert p + Stamped(f, c) == a + [c % 256, c / 256] + z;
    Field(a, 0, 0, z);
    Field(a, c % 256, c / 256, z);
    var s := Weigh(0, p + f);
    assert Weigh(0, p + Stamped(f, c)) == s + c;
    FoldIs(s);
    FoldIs(s + c);
    if s > 0 {
      var k := (s - 1) / 65535;
      assert s + c - 1 == 65534 + 65535 * k;
      ModShift(65534, k);
    }
  }

  lemma Field(a: seq<byte>, x: byte, y: byte, z: seq<byte>)
    requires |a| == 28
    ensures Weigh(0, a + [x, y] + z) == Weigh(0, a) + x + High(y) + Weigh(30, z)
  {
    WeighJoin(0, a + [x, y], z);
    WeighJoin(0, a, [x, y]);
    assert [x, y][1..] == [y] && [y][1..] == [];
  }
}
