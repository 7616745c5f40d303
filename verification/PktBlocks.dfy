/**
 * Packet buffers of net/pktbuf.c: a chain of 512-byte blocks, each with its data
 * somewhere inside its payload, and a cursor.
 */
module PktBlocks {
  import opened Common

  const BLK := 512
  const NET_OK := 0
  const E_NET_SIZE := 30
  const E_NET_PARAM := 31

  // The data is payload[off..off + size].
  datatype Blk = Blk(payload: seq<byte>, off: int, size: int)

  // Where reading and writing go on: nowhere at the end, or at payload index `o` of block `i`.  Lost: the block list has changed under it.
  datatype Cursor = AtEnd | On(i: int, o: int) | Lost

  datatype Buf = Buf(blks: seq<Blk>, total: int, pos: int, cur: Cursor)

  // No block is empty.
  predicate BlkOk(b: Blk) {
    |b.payload| == BLK && 0 <= b.off && 0 < b.size && b.off + b.size <= BLK
  }

  predicate AllOk(bs: seq<Blk>) {
    forall i :: 0 <= i < |bs| ==> BlkOk(bs[i])
  }

  function Bytes(b: Blk): (s: seq<byte>)
    requires BlkOk(b)
    ensures |s| == b.size
  {
    b.payload[b.off..b.off + b.size]
  }

  // The byte string that the chain stands for.
  function Flat(bs: seq<Blk>): seq<byte>
    requires AllOk(bs)
  {
    if bs == [] then [] else Bytes(bs[0]) + Flat(bs[1..])
  }

  lemma AllOkJoin(a: seq<Blk>, b: seq<Blk>)
    requires AllOk(a) && AllOk(b)
    ensures AllOk(a + b)
  {
    hide BlkOk;
  }

  lemma {:induction false} FlatJoin(a: seq<Blk>, b: seq<Blk>)
    requires AllOk(a) && AllOk(b)
    ensures AllOk(a + b) && Flat(a + b) == Flat(a) + Flat(b)
  {
    AllOkJoin(a, b);
    hide BlkOk; hide Bytes;
    if a == [] {
      assert a + b == b;
    } else {
      FlatJoin(a[1..], b);
      assert (a + b)[0] == a[0] && (a + b)[1..] == a[1..] + b;
      assert Flat(a + b) == Bytes(a[0]) + Flat(a[1..] + b);
    }
  }

  // Cutting a block at the end and at the start.
  lemma BytesTake(b: Blk, n: int)
    requires BlkOk(b) && 0 < n <= b.size
    ensures var b' := b.(size := n); BlkOk(b') && Bytes(b') == Bytes(b)[..n]
  {
    SliceTake(b.payload, b.off, b.size, n);
  }

  lemma SliceTake(s: seq<byte>, a: int, m: int, n: int)
    requires 0 <= a && 0 <= n <= m && a + m <= |s|
    ensures s[a..a + m][..n] == s[a..a + n]
  {
  }

  lemma SliceDrop(s: seq<byte>, a: int, m: int, n: int)
    requires 0 <= a && 0 <= n <= m && a + m <= |s|
    ensures s[a..a + m][n..] == s[a + n..a + m]
  {
  }

  lemma BytesDrop(b: Blk, n: int)
    requires BlkOk(b) && 0 <= n < b.size
    ensures var b' := b.(off := b.off + n, size := b.size - n); BlkOk(b') && Bytes(b') == Bytes(b)[n..]
  {
    SliceDrop(b.payload, b.off, b.size, n);
  }

  lemma BytesWritten(b: Blk, k: int, src: seq<byte>)
    requires BlkOk(b) && 0 <= k && k + |src| <= b.size
    ensures var o := b.off + k;
            var b' := b.(payload := b.payload[..o] + src + b.payload[o + |src|..]);
            BlkOk(b') && Bytes(b') == Bytes(b)[..k] + src + Bytes(b)[k + |src|..]
  {
    CutWritten(b.payload, b.off, b.size, k, src);
  }

  lemma CutWritten(s: seq<byte>, a: int, m: int, k: int, src: seq<byte>)
    requires 0 <= a && 0 <= k && k + |src| <= m && a + m <= |s|
    ensures var p := s[..a + k] + src + s[a + k + |src|..];
            |p| == |s| && p[a..a + m] == s[a..a + m][..k] + src + s[a..a + m][k + |src|..]
  {
    var x, z, e := s[..a + k], s[a + k + |src|..], m - k - |src|;
    ThreeParts(x, src, z, a, e);
    SliceTake(s, a, m, k);
    SliceDrop(s, a, m, k + |src|);
    assert x[a..] == s[a..a + k];
    assert z[..e] == s[a + k + |src|..a + m];
  }

  lemma ThreeParts(x: seq<byte>, y: seq<byte>, z: seq<byte>, a: int, e: int)
    requires 0 <= a <= |x| && 0 <= e <= |z|
    ensures (x + y + z)[a..|x| + |y| + e] == x[a..] + y + z[..e]
  {
  }

  lemma FlatOne(b: Blk)
    requires BlkOk(b)
    ensures Flat([b]) == Bytes(b)
  {
    assert [b][1..] == [];
  }

  lemma FlatFirst(bs: seq<Blk>)
    requires AllOk(bs) && bs != []
    ensures Flat(bs) == Bytes(bs[0]) + Flat(bs[1..]) && |Flat(bs)| >= bs[0].size
  {
  }

  lemma FlatLast(bs: seq<Blk>)
    requires AllOk(bs) && bs != []
    ensures var n := |bs| - 1; Flat(bs) == Flat(bs[..n]) + Bytes(bs[n])
  {
    hide Flat; hide Bytes;
    var n := |bs| - 1;
    assert bs == bs[..n] + [bs[n]];
    FlatJoin(bs[..n], [bs[n]]);
    FlatOne(bs[n]);
  }

  lemma FlatNone(bs: seq<Blk>)
    requires AllOk(bs)
    ensures Flat(bs) == [] <==> bs == []
  {
  }

  ghost predicate Ok(b: Buf) {
    AllOk(b.blks) && b.total == |Flat(b.blks)|
  }

  // The number of bytes before block `i`.
  function Start(bs: seq<Blk>, i: int): int
    requires AllOk(bs) && 0 <= i <= |bs|
  {
    |Flat(bs[..i])|
  }

  // The cursor stands at position `pos` of the byte string.
  ghost predicate Placed(b: Buf) {
    && Ok(b) && 0 <= b.pos <= b.total
    && (b.pos == b.total ==> b.cur == AtEnd)
    && (b.pos < b.total ==> b.cur.On? && 0 <= b.cur.i < |b.blks| && InBlk(b.blks, b.pos, b.cur.i, b.cur.o))
  }

  ghost predicate InBlk(bs: seq<Blk>, pos: int, i: int, o: int)
    requires AllOk(bs) && 0 <= i < |bs|
  {
    bs[i].off <= o < bs[i].off + bs[i].size && pos == Start(bs, i) + (o - bs[i].off)
  }

  // `s` with the bytes from `at` on replaced by `src`.
  function Splice(s: seq<byte>, at: int, src: seq<byte>): seq<byte>
    requires 0 <= at && at + |src| <= |s|
  {
    s[..at] + src + s[at + |src|..]
  }

  lemma SpliceIs(s: seq<byte>, at: int, src: seq<byte>)
    requires 0 <= at && at + |src| <= |s|
    ensures var r := Splice(s, at, src);
            |r| == |s| && r[at..at + |src|] == src && forall i :: 0 <= i < |s| && !(at <= i < at + |src|) ==> r[i] == s[i]
  {
    assert Splice(s, at, src)[at..at + |src|] == src;
  }

  // New blocks have come to the front, filled up to their ends, or to the back, filled from their beginnings.
  ghost predicate Added(bs: seq<Blk>, bs': seq<Blk>, front: bool) {
    && |bs| <= |bs'|
    && if front then
         bs'[|bs'| - |bs|..] == bs && forall i :: 0 <= i < |bs'| - |bs| ==> bs'[i].off + bs'[i].size == BLK
       else
         bs'[..|bs|] == bs && forall i :: |bs| <= i < |bs'| ==> bs'[i].off == 0
  }

  // pktblock_alloc_list: blocks for `size` bytes at the front or at the back.  What kmalloc returns is in them.
  method AllocList(bs: seq<Blk>, size0: nat, front: bool) returns (bs': seq<Blk>)
    requires AllOk(bs)
    ensures AllOk(bs')
    ensures front ==> |Flat(bs')| == size0 + |Flat(bs)| && Flat(bs')[size0..] == Flat(bs)
    ensures !front ==> |Flat(bs')| == size0 + |Flat(bs)| && Flat(bs')[..|Flat(bs)|] == Flat(bs)
    ensures front && 0 < size0 <= BLK ==> bs' != [] && bs'[0].size == size0
    ensures Added(bs, bs', front)
  {
    hide Flat;
    bs' := bs;
    var size := size0;
    while size > 0
      invariant 0 <= size <= size0 && AllOk(bs') && |Flat(bs')| == size0 - size + |Flat(bs)|
      invariant front ==> Flat(bs')[size0 - size..] == Flat(bs)
      invariant !front ==> Flat(bs')[..|Flat(bs)|] == Flat(bs)
      invariant front && size0 <= BLK && size < size0 ==> size == 0 && bs' != [] && bs'[0].size == size0
      invariant Added(bs, bs', front)
    {
      var payload := Payload();
      var cur := if size > BLK then BLK else size;
      if front {
        var b := Blk(payload, BLK - cur, cur);
        FlatJoin([b], bs');
        FlatOne(b);
        bs' := [b] + bs';
      } else {
        var b := Blk(payload, 0, cur);
        FlatJoin(bs', [b]);
        FlatOne(b);
        bs' := bs' + [b];
      }
      size := size - cur;
    }
  }

  // Any contents.
  method Payload() returns (p: seq<byte>)
    ensures |p| == BLK
  {
    p := [];
    while |p| < BLK
      invariant |p| <= BLK
    {
      var x: byte := *;
      p := p + [x];
    }
  }

  // pktbuf_remove_header: drops the first `size0` bytes.
  method RemoveHeader(b: Buf, size0: nat) returns (b': Buf)
    requires Ok(b) && b.blks != [] && size0 <= b.total
    ensures Ok(b') && b'.total == b.total - size0 && Flat(b'.blks) == Flat(b.blks)[size0..]
  {
    hide Flat;
    var bs, size := b.blks, size0;
    while size > 0
      invariant 0 <= size <= size0 && AllOk(bs) && size <= |Flat(bs)| && Flat(bs)[size..] == Flat(b.blks)[size0..]
      decreases size
    {
      FlatNone(bs);
      FlatFirst(bs);
      var blk := bs[0];
      if size < blk.size {
        var blk' := blk.(off := blk.off + size, size := blk.size - size);
        FlatFirst([blk'] + bs[1..]);
        assert ([blk'] + bs[1..])[1..] == bs[1..];
        BytesDrop(blk, size);
        bs := [blk'] + bs[1..];
        size := 0;
      } else {
        bs := bs[1..];
        size := size - blk.size;
      }
    }
    b' := Buf(bs, b.total - size0, b.pos, Lost);
  }

  // pktbuf_add_header: `ok` is false when the header has to be contiguous and does not fit one block.  The second requires is the code's assertion.
  method AddHeader(b: Buf, size: nat, cont: bool) returns (ok: bool, b': Buf)
    requires Ok(b) && b.blks != []
    requires !cont && size > b.blks[0].off ==> b.blks[0].off + b.blks[0].size == BLK
    ensures ok <==> !(cont && size > BLK)
    ensures if ok then Ok(b') && b'.total == b.total + size && Flat(b'.blks)[size..] == Flat(b.blks) else b' == b
    ensures ok && cont && size > 0 ==> b'.blks != [] && b'.blks[0].size >= size
  {
    hide Flat;
    var blk := b.blks[0];
    var reserve := blk.off;
    FlatFirst(b.blks);
    var rest := b.blks[1..];
    ok, b' := true, b;
    if size <= reserve {
      var blk' := blk.(size := blk.size + size, off := blk.off - size);
      Widened(blk, blk', rest, size);
      b' := Buf([blk'] + rest, b.total + size, b.pos, Lost);
    } else if cont {
      if size > BLK {
        return false, b;
      }
      var bs := AllocList(b.blks, size, true);
      b' := Buf(bs, b.total + size, b.pos, Lost);
    } else {
      var blk' := blk.(off := 0, size := blk.size + reserve);
      assert blk'.size == BLK;
      Widened(blk, blk', rest, reserve);
      var bs := AllocList([blk'] + rest, size - reserve, true);
      assert Flat(bs)[size..] == Flat(bs)[size - reserve..][reserve..];
      b' := Buf(bs, b.total + size, b.pos, Lost);
    }
  }

  lemma Widened(blk: Blk, blk': Blk, rest: seq<Blk>, n: nat)
    requires BlkOk(blk) && BlkOk(blk') && AllOk(rest) && blk'.payload == blk.payload
    requires blk'.off == blk.off - n && blk'.size == blk.size + n
    ensures var bs := [blk'] + rest;
            AllOk(bs) && |Flat(bs)| == n + blk.size + |Flat(rest)| && Flat(bs)[n..] == Bytes(blk) + Flat(rest)
  {
    assert ([blk'] + rest)[1..] == rest;
    assert Bytes(blk')[n..] == Bytes(blk);
  }

  // The part of pktbuf_resize that lengthens: bytes are added at the end.
  method Grow(b: Buf, to: nat) returns (b': Buf)
    requires Ok(b) && to > b.total
    ensures Ok(b') && b'.total == to && Flat(b'.blks)[..b.total] == Flat(b.blks)
    ensures forall i :: |b.blks| <= i < |b'.blks| ==> b'.blks[i].off == 0
  {
    hide Flat;
    var inc := to - b.total;
    FlatNone(b.blks);
    var bs: seq<Blk>;
    if b.total == 0 {
      bs := AllocList(b.blks, to, false);
    } else {
      var n := |b.blks| - 1;
      var tail := b.blks[n];
      var remain := BLK - (tail.off + tail.size);
      var more := if remain >= inc then inc else remain;
      var tail' := tail.(size := tail.size + more);
      Lengthened(b.blks, tail', more);
      bs := b.blks[..n] + [tail'];
      if remain < inc {
        ghost var longer := Flat(bs);
        bs := AllocList(bs, inc - remain, false);
        assert Flat(bs)[..b.total] == Flat(bs)[..|longer|][..b.total];
      }
    }
    b' := Buf(bs, to, b.pos, Lost);
  }

  lemma Lengthened(bs: seq<Blk>, tail': Blk, n: nat)
    requires AllOk(bs) && bs != [] && BlkOk(tail')
    requires var t := bs[|bs| - 1]; tail'.payload == t.payload && tail'.off == t.off && tail'.size == t.size + n
    ensures var bs' := bs[..|bs| - 1] + [tail'];
            AllOk(bs') && |Flat(bs')| == |Flat(bs)| + n && Flat(bs')[..|Flat(bs)|] == Flat(bs)
  {
    hide Flat;
    FlatLast(bs);
    FlatJoin(bs[..|bs| - 1], [tail']);
    FlatOne(tail');
    assert Bytes(tail')[..bs[|bs| - 1].size] == Bytes(bs[|bs| - 1]);
  }

  // The part of pktbuf_resize that shortens: bytes are cut off at the end.
  method Shrink(b: Buf, to: nat) returns (b': Buf)
    requires Ok(b) && to < b.total
    ensures Ok(b') && b'.total == to && Flat(b'.blks) == Flat(b.blks)[..to]
  {
    hide Flat;
    var bs, dec := b.blks, b.total - to;
    while dec > 0
      invariant 0 <= dec && AllOk(bs) && |Flat(bs)| == to + dec && Flat(bs)[..to] == Flat(b.blks)[..to]
      decreases dec
    {
      FlatNone(bs);
      FlatLast(bs);
      var n := |bs| - 1;
      var tail := bs[n];
      if tail.size > dec {
        var tail' := tail.(size := tail.size - dec);
        BytesTake(tail, tail.size - dec);
        FlatJoin(bs[..n], [tail']);
        FlatOne(tail');
        bs := bs[..n] + [tail'];
        dec := 0;
      } else {
        bs := bs[..n];
        dec := dec - tail.size;
      }
    }
    assert Flat(bs) == Flat(bs)[..to];
    b' := Buf(bs, to, b.pos, Lost);
  }

  // pktbuf_join: the second string follows the first.  A cursor before the end of the first stays where it is.
  method Join(dest: Buf, src: Buf) returns (b: Buf)
    requires Ok(dest) && Ok(src)
    ensures Ok(b) && b.total == dest.total + src.total && Flat(b.blks) == Flat(dest.blks) + Flat(src.blks)
    ensures Placed(dest) && dest.pos < dest.total ==> Placed(b) && b.pos == dest.pos
  {
    hide Flat;
    FlatJoin(dest.blks, src.blks);
    b := Buf(dest.blks + src.blks, dest.total + src.total, dest.pos, dest.cur);
    if Placed(dest) && dest.pos < dest.total {
      assert b.blks[..b.cur.i] == dest.blks[..b.cur.i];
    }
  }

  /**
   * pktbuf_set_cont: moves bytes into the first block until it holds `size` of
   * them.  The byte string stays the same.
   */
  method SetCont(b: Buf, size: nat) returns (ret: int, b': Buf)
    requires Ok(b) && (size <= b.total ==> b.blks != [])
    ensures ret == if size > b.total || size > BLK then -E_NET_SIZE else NET_OK
    ensures Ok(b') && b'.total == b.total && Flat(b'.blks) == Flat(b.blks)
    ensures ret == NET_OK && size > 0 ==> b'.blks != [] && b'.blks[0].size >= size
    ensures ret != NET_OK ==> b' == b
  {
    hide Flat;
    if size > b.total || size > BLK {
      return -E_NET_SIZE, b;
    }
    if b.blks[0].size >= size {
      return NET_OK, b;
    }
    FlatFirst(b.blks);
    var first, rest := ToFront(b.blks[0]), b.blks[1..];
    while first.size < size
      invariant BlkOk(first) && first.off == 0 && first.size <= size && AllOk(rest)
      invariant Bytes(first) + Flat(rest) == Flat(b.blks)
      decreases size - first.size
    {
      first, rest := PullUp(first, rest, size);
    }
    assert ([first] + rest)[1..] == rest;
    FlatFirst([first] + rest);
    return NET_OK, Buf([first] + rest, b.total, b.pos, Lost);
  }

  // One round of the loop of pktbuf_set_cont.
  method PullUp(first: Blk, rest: seq<Blk>, size: nat) returns (first': Blk, rest': seq<Blk>)
    requires BlkOk(first) && first.off == 0 && first.size < size <= BLK && AllOk(rest) && size <= first.size + |Flat(rest)|
    ensures BlkOk(first') && first'.off == 0 && first.size < first'.size <= size && AllOk(rest')
    ensures Bytes(first') + Flat(rest') == Bytes(first) + Flat(rest)
  {
    hide Flat; hide Bytes;
    FlatNone(rest);
    FlatFirst(rest);
    var cur, more := rest[0], rest[1..];
    var move := if cur.size > size - first.size then size - first.size else cur.size;
    first' := Appended(first, cur, move);
    if cur.size == move {
      rest' := more;
      assert Bytes(cur)[..move] == Bytes(cur);
    } else {
      BytesDrop(cur, move);
      var cur' := cur.(off := cur.off + move, size := cur.size - move);
      rest' := [cur'] + more;
      assert rest'[1..] == more;
      FlatFirst(rest');
      assert Bytes(cur)[..move] + Bytes(cur)[move..] == Bytes(cur);
    }
  }

  // The data of a block is copied to the start of its payload.
  function ToFront(b: Blk): (r: Blk)
    requires BlkOk(b)
    ensures BlkOk(r) && r.off == 0 && Bytes(r) == Bytes(b)
  {
    Blk(Bytes(b) + b.payload[b.size..], 0, b.size)
  }

  // The first `n` bytes of `c` are copied behind the data of `b`.
  function Appended(b: Blk, c: Blk, n: int): (r: Blk)
    requires BlkOk(b) && BlkOk(c) && 0 <= n <= c.size && b.off == 0 && b.size + n <= BLK
    ensures BlkOk(r) && r.off == 0 && r.size == b.size + n && Bytes(r) == Bytes(b) + Bytes(c)[..n]
  {
    Blk(b.payload[..b.size] + Bytes(c)[..n] + b.payload[b.size + n..], 0, b.size + n)
  }

  // pktbuf_reset_acc
  function Reset(b: Buf): (r: Buf)
    requires Ok(b)
    ensures Placed(r) && r.pos == 0 && r.blks == b.blks && r.total == b.total
  {
    FlatNone(b.blks);
    assert b.blks[..0] == [];
    b.(pos := 0, cur := if b.blks == [] then AtEnd else On(0, b.blks[0].off))
  }

  // cur_blk_remain_nolock
  function Remain(b: Buf): int
    requires b.cur.On? ==> 0 <= b.cur.i < |b.blks|
  {
    if b.cur.On? then b.blks[b.cur.i].off + b.blks[b.cur.i].size - b.cur.o else 0
  }

  lemma {:induction false} FlatAt(bs: seq<Blk>, i: int)
    requires AllOk(bs) && 0 <= i < |bs|
    ensures Flat(bs) == Flat(bs[..i]) + Bytes(bs[i]) + Flat(bs[i + 1..])
    ensures Start(bs, i + 1) == Start(bs, i) + bs[i].size
  {
    hide Flat;
    assert bs == bs[..i] + ([bs[i]] + bs[i + 1..]);
    FlatJoin(bs[..i], [bs[i]] + bs[i + 1..]);
    FlatJoin([bs[i]], bs[i + 1..]);
    FlatOne(bs[i]);
    assert bs[..i + 1] == bs[..i] + [bs[i]];
    FlatJoin(bs[..i], [bs[i]]);
  }

  // What the cursor tells about the block it is in.
  lemma CursorFacts(b: Buf)
    requires Placed(b) && b.pos < b.total
    ensures var blk := b.blks[b.cur.i];
            && BlkOk(blk) && blk.off <= b.cur.o && 0 < Remain(b) && b.pos + Remain(b) <= b.total
            && Flat(b.blks)[b.pos..b.pos + Remain(b)] == blk.payload[b.cur.o..b.cur.o + Remain(b)]
  {
    hide Flat;
    var i := b.cur.i;
    FlatAt(b.blks, i);
    var blk := b.blks[i];
    var k := b.cur.o - blk.off;
    assert Flat(b.blks)[b.pos..b.pos + Remain(b)] == Bytes(blk)[k..];
  }

  // move_forward_nolock by at most what remains in the block.
  method MoveForward(b: Buf, n: nat) returns (b': Buf)
    requires Placed(b) && b.pos < b.total && n <= Remain(b)
    ensures Placed(b') && b'.pos == b.pos + n && b'.blks == b.blks && b'.total == b.total
  {
    hide Flat;
    CursorFacts(b);
    var i, o := b.cur.i, b.cur.o + n;
    FlatAt(b.blks, i);
    b' := b.(pos := b.pos + n, cur := On(i, o));
    if o >= b.blks[i].off + b.blks[i].size {
      if i + 1 < |b.blks| {
        FlatAt(b.blks, i + 1);
        b' := b'.(cur := On(i + 1, b.blks[i + 1].off));
      } else {
        assert b.blks[i + 1..] == [];
        FlatNone(b.blks[i + 1..]);
        b' := b'.(cur := AtEnd);
      }
    }
  }

  // pktbuf_read: the next `size` bytes, and the cursor behind them.
  method Read(b: Buf, size: nat) returns (ret: int, bytes: seq<byte>, b': Buf)
    requires Placed(b)
    ensures ret == if b.total - b.pos < size then -E_NET_SIZE else NET_OK
    ensures Placed(b') && b'.blks == b.blks && b'.total == b.total
    ensures if ret == NET_OK then bytes == Flat(b.blks)[b.pos..b.pos + size] && b'.pos == b.pos + size else b' == b && bytes == []
  {
    hide Flat; hide Placed; hide Remain;
    PlacedFacts(b);
    b', bytes := b, [];
    if size == 0 {
      return NET_OK, [], b;
    }
    if b.total - b.pos < size {
      return -E_NET_SIZE, [], b;
    }
    while |bytes| < size
      invariant Placed(b') && b'.blks == b.blks && b'.total == b.total && b'.pos == b.pos + |bytes|
      invariant |bytes| <= size && bytes == Flat(b.blks)[b.pos..b'.pos]
    {
      var chunk;
      chunk, b' := ReadChunk(b', size - |bytes|);
      bytes := bytes + chunk;
    }
    ret := NET_OK;
  }

  lemma PlacedFacts(b: Buf)
    requires Placed(b)
    ensures AllOk(b.blks) && |Flat(b.blks)| == b.total && 0 <= b.pos <= b.total
  {
  }

  // One round of the copying loops: bytes from the block of the cursor.
  method ReadChunk(b: Buf, size: nat) returns (chunk: seq<byte>, b': Buf)
    requires Placed(b) && b.pos < b.total && 0 < size <= b.total - b.pos
    ensures Placed(b') && b'.blks == b.blks && b'.total == b.total && b'.pos == b.pos + |chunk|
    ensures 0 < |chunk| <= size && |chunk| <= BLK && chunk == Flat(b.blks)[b.pos..b'.pos]
  {
    hide Flat;
    CursorFacts(b);
    var r := Remain(b);
    var n := if size > r then r else size;
    chunk := b.blks[b.cur.i].payload[b.cur.o..b.cur.o + n];
    SliceTake(b.blks[b.cur.i].payload, b.cur.o, r, n);
    SliceTake(Flat(b.blks), b.pos, r, n);
    b' := MoveForward(b, n);
  }

  // One round of the writing loops: as many bytes of `src` as fit the block of the cursor.
  method WriteChunk(b: Buf, src: seq<byte>) returns (n: nat, b': Buf)
    requires Placed(b) && b.pos < b.total && 0 < |src| <= b.total - b.pos
    ensures Placed(b') && b'.total == b.total && b'.pos == b.pos + n && 0 < n <= |src|
    ensures Flat(b'.blks) == Splice(Flat(b.blks), b.pos, src[..n])
    ensures |src| <= Remain(b) ==> n == |src|
  {
    hide Flat;
    CursorFacts(b);
    var r := Remain(b);
    n := if |src| > r then r else |src|;
    var i, o := b.cur.i, b.cur.o;
    var blk := b.blks[i];
    var blk' := blk.(payload := blk.payload[..o] + src[..n] + blk.payload[o + n..]);
    BlockWritten(b, blk', src[..n]);
    var b1 := b.(blks := b.blks[i := blk']);
    b' := MoveForward(b1, n);
  }

  lemma BlockWritten(b: Buf, blk': Blk, src: seq<byte>)
    requires Placed(b) && b.pos < b.total && |src| <= Remain(b)
    requires var blk := b.blks[b.cur.i];
             && 0 <= b.cur.o && b.cur.o + |src| <= |blk.payload|
             && blk' == blk.(payload := blk.payload[..b.cur.o] + src + blk.payload[b.cur.o + |src|..])
    ensures var b1 := b.(blks := b.blks[b.cur.i := blk']);
            && Placed(b1) && Remain(b1) == Remain(b) && b.pos + |src| <= |Flat(b.blks)|
            && Flat(b1.blks) == Splice(Flat(b.blks), b.pos, src)
  {
    hide Flat;
    var i := b.cur.i;
    var blk, bs' := b.blks[i], b.blks[i := blk'];
    var k := b.cur.o - blk.off;
    CursorFacts(b);
    BytesWritten(blk, k, src);
    hide Bytes; hide BlkOk;
    FlatReplaced(b.blks, i, blk', k, src);
    assert bs'[..i] == b.blks[..i];
  }

  // Replacing bytes of one block replaces them in the flat string.
  lemma FlatReplaced(bs: seq<Blk>, i: int, blk: Blk, k: int, src: seq<byte>)
    requires AllOk(bs) && 0 <= i < |bs| && BlkOk(blk) && 0 <= k && k + |src| <= |Bytes(bs[i])| && Bytes(blk) == Splice(Bytes(bs[i]), k, src)
    ensures var bs' := bs[i := blk];
            && AllOk(bs') && AllOk(bs[..i]) && |Flat(bs[..i])| + k + |src| <= |Flat(bs)|
            && Flat(bs') == Splice(Flat(bs), |Flat(bs[..i])| + k, src)
  {
    hide Flat; hide Bytes; hide BlkOk;
    var bs' := bs[i := blk];
    assert AllOk(bs');
    FlatAt(bs, i);
    FlatAt(bs', i);
    assert bs'[..i] == bs[..i] && bs'[i + 1..] == bs[i + 1..];
    Middle(Flat(bs[..i]), Bytes(bs[i]), Flat(bs[i + 1..]), k, src);
  }

  lemma Middle(a: seq<byte>, m: seq<byte>, z: seq<byte>, k: int, src: seq<byte>)
    requires 0 <= k && k + |src| <= |m|
    ensures a + (m[..k] + src + m[k + |src|..]) + z == Splice(a + m + z, |a| + k, src)
  {
  }

  lemma SpliceTwice(s: seq<byte>, at: int, x: seq<byte>, y: seq<byte>)
    requires 0 <= at && at + |x| + |y| <= |s|
    ensures Splice(Splice(s, at, x), at + |x|, y) == Splice(s, at, x + y)
  {
  }

  // pktbuf_write: `src` replaces the bytes at the cursor.
  method Write(b: Buf, src: seq<byte>) returns (ret: int, b': Buf)
    requires Placed(b)
    ensures ret == if |src| == 0 then -E_NET_PARAM else if b.total - b.pos < |src| then -E_NET_SIZE else NET_OK
    ensures Placed(b') && b'.total == b.total
    ensures if ret == NET_OK then b'.pos == b.pos + |src| && Flat(b'.blks) == Splice(Flat(b.blks), b.pos, src) else b' == b
  {
    hide Flat; hide Placed; hide Splice;
    PlacedFacts(b);
    b' := b;
    if |src| == 0 {
      return -E_NET_PARAM, b;
    }
    if b.total - b.pos < |src| {
      return -E_NET_SIZE, b;
    }
    var done: nat := 0;
    SpliceNone(Flat(b.blks), b.pos);
    while done < |src|
      invariant Placed(b') && b'.total == b.total && done <= |src| && b'.pos == b.pos + done
      invariant AllOk(b'.blks) && Flat(b'.blks) == Splice(Flat(b.blks), b.pos, src[..done])
    {
      var n;
      n, b' := WriteChunk(b', src[done..]);
      SpliceTwice(Flat(b.blks), b.pos, src[..done], src[done..][..n]);
      assert src[..done] + src[done..][..n] == src[..done + n];
      PlacedFacts(b');
      done := done + n;
    }
    assert src[..done] == src;
    ret := NET_OK;
  }

  lemma SpliceNone(s: seq<byte>, at: int)
    requires 0 <= at <= |s|
    ensures Splice(s, at, []) == s
  {
  }

  // `n` times the byte `v`.
  function Repeated(v: byte, n: nat): (s: seq<byte>)
    ensures |s| == n && forall i :: 0 <= i < n ==> s[i] == v
  {
    if n == 0 then [] else [v] + Repeated(v, n - 1)
  }

  // pktbuf_fill: memset at the cursor.
  method Fill(b: Buf, v: byte, size: nat) returns (ret: int, b': Buf)
    requires Placed(b)
    ensures ret == if size == 0 then -E_NET_PARAM else if b.total - b.pos < size then -E_NET_SIZE else NET_OK
    ensures Placed(b') && b'.total == b.total
    ensures if ret == NET_OK then b'.pos == b.pos + size && Flat(b'.blks) == Splice(Flat(b.blks), b.pos, Repeated(v, size)) else b' == b
  {
    hide Placed; hide Flat; hide Splice; hide Repeated;
    PlacedFacts(b);
    b' := b;
    if size == 0 {
      return -E_NET_PARAM, b;
    }
    if b.total - b.pos < size {
      return -E_NET_SIZE, b;
    }
    var all := Repeated(v, size);
    var done: nat := 0;
    SpliceNone(Flat(b.blks), b.pos);
    while done < size
      invariant Placed(b') && b'.total == b.total && done <= size && b'.pos == b.pos + done
      invariant AllOk(b'.blks) && Flat(b'.blks) == Splice(Flat(b.blks), b.pos, all[..done])
    {
      var n;
      n, b' := WriteChunk(b', all[done..]);
      SpliceTwice(Flat(b.blks), b.pos, all[..done], all[done..][..n]);
      assert all[..done] + all[done..][..n] == all[..done + n];
      PlacedFacts(b');
      done := done + n;
    }
    assert all[..done] == all;
    ret := NET_OK;
  }

  // pktbuf_seek: moves the cursor, forward from where it is or from the start.
  method Seek(b: Buf, offset: int) returns (ret: int, b': Buf)
    requires Placed(b)
    ensures ret == if offset != b.pos && (offset < 0 || offset >= b.total) then -E_NET_SIZE else NET_OK
    ensures Placed(b') && b'.blks == b.blks && b'.total == b.total
    ensures b'.pos == if ret == NET_OK then offset else b.pos
  {
    hide Placed; hide Flat; hide Remain;
    PlacedFacts(b);
    if b.pos == offset {
      return NET_OK, b;
    }
    if offset < 0 || offset >= b.total {
      return -E_NET_SIZE, b;
    }
    b' := b;
    if offset < b.pos {
      b' := Reset(b);
    }
    while b'.pos < offset
      invariant Placed(b') && b'.blks == b.blks && b'.total == b.total && b'.pos <= offset
    {
      CursorFacts(b');
      CursorOn(b');
      var move, r := offset - b'.pos, Remain(b');
      b' := MoveForward(b', if move > r then r else move);
    }
    ret := NET_OK;
  }

  lemma CursorOn(b: Buf)
    requires Placed(b) && b.pos < b.total
    ensures b.cur.On? && 0 <= b.cur.i < |b.blks|
  {
  }

  // pktbuf_copy: `size` bytes at the cursor of `src` replace those at the cursor of `dest`.
  method Copy(dest: Buf, src: Buf, size: nat) returns (ret: int, d: Buf, s: Buf)
    requires Placed(dest) && Placed(src)
    ensures ret == if dest.total - dest.pos < size || src.total - src.pos < size then -E_NET_SIZE else NET_OK
    ensures Placed(d) && Placed(s) && d.total == dest.total && s.blks == src.blks && s.total == src.total
    ensures if ret == NET_OK then
              && d.pos == dest.pos + size && s.pos == src.pos + size
              && Flat(d.blks) == Splice(Flat(dest.blks), dest.pos, Flat(src.blks)[src.pos..src.pos + size])
            else d == dest && s == src
  {
    hide Placed; hide Flat; hide Splice; hide Remain;
    PlacedFacts(dest);
    PlacedFacts(src);
    d, s := dest, src;
    if dest.total - dest.pos < size || src.total - src.pos < size {
      return -E_NET_SIZE, d, s;
    }
    ghost var f := Flat(src.blks);
    var left := size;
    SpliceNone(Flat(dest.blks), dest.pos);
    assert f[src.pos..src.pos] == [];
    while left > 0
      invariant 0 <= left <= size && Placed(d) && Placed(s) && d.total == dest.total && s.blks == src.blks && s.total == src.total
      invariant d.pos == dest.pos + (size - left) && s.pos == src.pos + (size - left)
      invariant AllOk(d.blks) && Flat(d.blks) == Splice(Flat(dest.blks), dest.pos, f[src.pos..s.pos])
    {
      CursorOn(d);
      CursorOn(s);
      CursorFacts(d);
      var n := if Remain(d) > left then left else Remain(d);
      var chunk, s' := ReadChunk(s, n);
      var m, d' := WriteChunk(d, chunk);
      assert m == |chunk| && chunk[..m] == chunk;
      SpliceTwice(Flat(dest.blks), dest.pos, f[src.pos..s.pos], chunk);
      assert f[src.pos..s.pos] + chunk == f[src.pos..s'.pos];
      PlacedFacts(d');
      left := left - |chunk|;
      d, s := d', s';
    }
    ret := NET_OK;
  }
}
