/**
 * The ring buffer of net/tcp_buf.c.  `inp` and `out` are the positions where
 * the next byte is written and read, `count` the number of bytes held.
 */
module TcpRing {
  import opened Common

  class Ring {
    const data: array<byte>
    var inp: nat
    var out: nat
    var count: nat

    ghost predicate Valid()
      reads this, data
    {
      && count <= data.Length
      && (data.Length > 0 ==> out < data.Length && inp == Pos(out, count, data.Length))
      && (data.Length == 0 ==> out == inp == 0)
    }

    // The bytes held, oldest first.
    ghost function Contents(): (s: seq<byte>)
      requires Valid()
      reads this, data
      ensures |s| == count
    {
      View(data[..], out, count)
    }

    constructor (size: nat)
      ensures Valid() && fresh(data) && data.Length == size && Contents() == []
    {
      data := new byte[size](_ => 0);
      inp, out, count := 0, 0, 0;
    }

    function Free(): (r: nat)
      requires count <= data.Length
      reads this
      ensures r + count == data.Length
    {
      data.Length - count
    }

    /**
     * tcp_buf_write_rcv at offset 0: as many of the first `total` bytes of `src`
     * as fit are appended, in at most two pieces.
     */
    method Write(src: seq<byte>, total: nat) returns (written: nat)
      requires Valid() && total <= |src|
      modifies this, data
      ensures Valid() && out == old(out)
      ensures written == if total <= old(Free()) then total else old(Free())
      ensures Contents() == old(Contents()) + src[..written]
    {
      hide View; hide Pos;
      var start: nat := inp;
      var free := Free();
      PosBound(out, count, data.Length);
      written := if total > free then free else total;
      var size: nat := written;
      var done: nat := 0;
      while size > 0
        invariant done + size == written <= |src| && out == old(out) && inp == old(inp)
        invariant count == old(count) + done && count + size <= data.Length
        invariant data.Length > 0 ==> start == Pos(out, count, data.Length) && start < data.Length
        invariant size == 0 && data.Length == 0 ==> start == 0
        invariant View(data[..], out, count) == old(Contents()) + src[..done]
      {
        var toEnd := data.Length - start;
        var chunk := if size > toEnd then toEnd else size;
        PosNext(out, count, chunk, data.Length);
        Parts(src, done, chunk);
        Regroups(old(Contents()), src[..done], src[done..done + chunk]);
        CopyIn(start, src, done, chunk);
        start := start + chunk;
        if start >= data.Length {
          start := start - data.Length;
        }
        count := count + chunk;
        size := size - chunk;
        done := done + chunk;
      }
      inp := start;
    }

    // tcp_buf_read_rcv: hands out the oldest bytes, up to `size` of them.
    method Read(size: nat) returns (bytes: seq<byte>)
      requires Valid()
      modifies this
      ensures Valid() && inp == old(inp)
      ensures |bytes| == if size > old(count) then old(count) else size
      ensures old(Contents()) == bytes + Contents()
    {
      hide View;
      var total := if size > count then count else size;
      bytes := [];
      while |bytes| < total
        invariant |bytes| <= total <= old(count) && count == old(count) - |bytes| && Valid() && inp == old(inp)
        invariant old(Contents()) == bytes + View(data[..], out, count)
      {
        ViewFirst(data[..], out, count);
        Regroup(bytes, data[out], View(data[..], Pos(out, 1, data.Length), count - 1));
        bytes := bytes + [data[out]];
        out := out + 1;
        if out >= data.Length {
          out := 0;
        }
        count := count - 1;
      }
    }

    // pktbuf_read into the free part of the ring: `chunk` bytes of `src` from index `from` on.
    method CopyIn(start: nat, src: seq<byte>, from: nat, chunk: nat)
      requires count + chunk <= data.Length && out < data.Length && from + chunk <= |src|
      requires start == Pos(out, count, data.Length) && start + chunk <= data.Length
      modifies data
      ensures View(data[..], out, count + chunk) == View(old(data[..]), out, count) + src[from..from + chunk]
    {
      forall i | start <= i < start + chunk {
        data[i] := src[from + i - start];
      }
      ViewExtended(old(data[..]), data[..], src, out, count, from, chunk);
    }
  }

  // The `count` bytes from `out` on, wrapping around at the end of `d`.
  ghost function View(d: seq<byte>, out: nat, count: nat): (s: seq<byte>)
    requires count <= |d| && (count > 0 ==> out < |d|)
    ensures |s| == count
  {
    seq(count, i requires 0 <= i < count => d[Pos(out, i, |d|)])
  }

  // Copying a chunk behind the bytes held appends it to them.
  lemma ViewExtended(d: seq<byte>, d': seq<byte>, src: seq<byte>, out: nat, count: nat, from: nat, chunk: nat)
    requires |d| == |d'| > 0 && out < |d| && count + chunk <= |d| && from + chunk <= |src|
    requires var start := Pos(out, count, |d|);
             && start + chunk <= |d|
             && forall i :: 0 <= i < |d| ==> d'[i] == if start <= i < start + chunk then src[from + i - start] else d[i]
    ensures View(d', out, count + chunk) == View(d, out, count) + src[from..from + chunk]
  {
  }

  lemma ViewFirst(d: seq<byte>, out: nat, count: nat)
    requires 0 < count <= |d| && out < |d|
    ensures View(d, out, count) == [d[out]] + View(d, Pos(out, 1, |d|), count - 1)
  {
  }

  lemma Regroup(a: seq<byte>, b: byte, c: seq<byte>)
    ensures a + ([b] + c) == a + [b] + c
  {
  }

  lemma PosBound(out: nat, i: nat, size: nat)
    requires i <= size
    ensures out < size ==> Pos(out, i, size) < size
  {
  }

  lemma PosNext(out: nat, count: nat, chunk: nat, size: nat)
    requires out < size && count + chunk <= size && Pos(out, count, size) + chunk <= size
    ensures var next := Pos(out, count, size) + chunk;
            Pos(out, count + chunk, size) == (if next >= size then next - size else next) < size
  {
  }

  lemma Parts(s: seq<byte>, i: nat, n: nat)
    requires i + n <= |s|
    ensures s[..i] + s[i..i + n] == s[..i + n]
  {
  }

  lemma Regroups(a: seq<byte>, b: seq<byte>, c: seq<byte>)
    ensures a + b + c == a + (b + c)
  {
  }

  // The place of the byte that lies `i` bytes behind the one at `out`.
  function Pos(out: nat, i: nat, size: nat): nat {
    if out + i >= size then out + i - size else out + i
  }
}
