/**
 * All packet buffers together: the list pktbuf_list and the count mem_size of
 * the bytes in use, which the operations of net/pktbuf.c keep up to date.  Where
 * the source waits for room, there is room here.
 */
module Pktbuf {
  import opened PktBlocks

  const MAX_MEM := 20000 * BLK

  // The bytes of all buffers.
  ghost function Sum(bufs: map<int, Buf>): int {
    if forall k :: k !in bufs then 0
    else
      var k :| k in bufs;
      bufs[k].total + Sum(bufs - {k})
  }

  lemma {:induction false} SumTake(bufs: map<int, Buf>, k: int)
    requires k in bufs
    ensures Sum(bufs) == bufs[k].total + Sum(bufs - {k})
    decreases |bufs|
  {
    var j :| j in bufs && Sum(bufs) == bufs[j].total + Sum(bufs - {j});
    if j != k {
      SumTake(bufs - {j}, k);
      SumTake(bufs - {k}, j);
      assert bufs - {j} - {k} == bufs - {k} - {j};
    }
  }

  lemma SumPut(bufs: map<int, Buf>, k: int, b: Buf)
    ensures Sum(bufs[k := b]) == b.total + Sum(bufs - {k})
  {
    SumTake(bufs[k := b], k);
    assert bufs[k := b] - {k} == bufs - {k};
  }

  class Pool {
    var bufs: map<int, Buf>
    var memSize: int

    ghost predicate Sound()
      reads this
    {
      forall k :: k in bufs ==> Ok(bufs[k])
    }

    // mem_size is the sum of the sizes of the buffers.
    ghost predicate Valid()
      reads this
    {
      Sound() && memSize == Sum(bufs) && memSize <= MAX_MEM
    }

    // pktbuf_init
    constructor ()
      ensures Valid() && bufs == map[]
    {
      bufs, memSize := map[], 0;
    }

    // pktbuf_alloc, at the address `k` that kmalloc gives out.
    method Alloc(k: int, size: nat)
      requires Valid() && k !in bufs && memSize + size <= MAX_MEM
      modifies this
      ensures Valid() && bufs.Keys == old(bufs).Keys + {k} && bufs == old(bufs)[k := bufs[k]]
      ensures |Flat(bufs[k].blks)| == size && Placed(bufs[k]) && bufs[k].pos == 0 && Added([], bufs[k].blks, true)
    {
      hide Flat; hide Sum; hide Added;
      var bs := AllocList([], size, true);
      FlatNone([]);
      SumPut(bufs, k, Reset(Buf(bs, size, 0, Lost)));
      assert bufs - {k} == bufs;
      bufs, memSize := bufs[k := Reset(Buf(bs, size, 0, Lost))], memSize + size;
    }

    // pktbuf_free, with the last reference.
    method Free(k: int)
      requires Valid() && k in bufs
      modifies this
      ensures Valid() && bufs == old(bufs) - {k}
    {
      hide Flat; hide Sum;
      SumTake(bufs, k);
      memSize := memSize - bufs[k].total;
      bufs := bufs - {k};
    }

    /**
     * pktbuf_add_header: `size` bytes in front.  The failing return has counted
     * the bytes already, so that mem_size is too large by `size` from then on.
     */
    method AddHeader(k: int, size: nat, cont: bool) returns (ret: int)
      requires Valid() && k in bufs && bufs[k].blks != [] && memSize + size <= MAX_MEM
      requires !cont && size > bufs[k].blks[0].off ==> bufs[k].blks[0].off + bufs[k].blks[0].size == BLK
      modifies this
      ensures ret == if cont && size > BLK then -E_NET_SIZE else NET_OK
      ensures ret == NET_OK ==> Valid() && k in bufs && bufs == old(bufs)[k := bufs[k]] && |Flat(bufs[k].blks)| == size + |Flat(old(bufs)[k].blks)|
                                && Flat(bufs[k].blks)[size..] == Flat(old(bufs)[k].blks)
      ensures ret == NET_OK && cont && size > 0 ==> bufs[k].blks != [] && bufs[k].blks[0].size >= size
      ensures ret != NET_OK ==> bufs == old(bufs) && memSize == Sum(bufs) + size && !Valid()
    {
      hide Flat; hide Sum;
      memSize := memSize + size;
      var ok, b := PktBlocks.AddHeader(bufs[k], size, cont);
      if !ok {
        return -E_NET_SIZE;
      }
      SumTake(bufs, k);
      SumPut(bufs, k, b);
      bufs := bufs[k := b];
      ret := NET_OK;
    }

    // pktbuf_remove_header: the first `size` bytes go away.
    method RemoveHeader(k: int, size: nat)
      requires Valid() && k in bufs && bufs[k].blks != [] && size <= bufs[k].total
      modifies this
      ensures Valid() && k in bufs && bufs == old(bufs)[k := bufs[k]] && Flat(bufs[k].blks) == Flat(old(bufs)[k].blks)[size..]
    {
      hide Flat; hide Sum;
      var b := PktBlocks.RemoveHeader(bufs[k], size);
      SumTake(bufs, k);
      SumPut(bufs, k, b);
      bufs, memSize := bufs[k := b], memSize - size;
    }

    // pktbuf_resize: the byte string is cut or extended at its end.
    method Resize(k: int, to: nat)
      requires Valid() && k in bufs && memSize + to - bufs[k].total <= MAX_MEM
      modifies this
      ensures Valid() && k in bufs && bufs == old(bufs)[k := bufs[k]] && |Flat(bufs[k].blks)| == to
      ensures var f, f' := Flat(old(bufs)[k].blks), Flat(bufs[k].blks);
              if to <= |f| then f' == f[..to] else f'[..|f|] == f
    {
      hide Flat; hide Sum;
      var b := bufs[k];
      if to == b.total {
        assert bufs == bufs[k := bufs[k]];
        return;
      }
      if to > b.total {
        b := Grow(b, to);
      } else {
        b := Shrink(b, to);
      }
      SumTake(bufs, k);
      SumPut(bufs, k, b);
      memSize := memSize + to - bufs[k].total;
      bufs := bufs[k := b];
    }

    // pktbuf_join: the bytes of `src` follow those of `dest`, and `src` is gone.
    method Join(dest: int, src: int)
      requires Valid() && dest in bufs && src in bufs && dest != src
      modifies `bufs
      ensures Valid() && dest in bufs && bufs == (old(bufs) - {src})[dest := bufs[dest]]
      ensures Flat(bufs[dest].blks) == Flat(old(bufs)[dest].blks) + Flat(old(bufs)[src].blks)
    {
      hide Flat; hide Sum;
      var b := PktBlocks.Join(bufs[dest], bufs[src]);
      SumTake(bufs, src);
      SumTake(bufs - {src}, dest);
      SumPut(bufs - {src}, dest, b);
      bufs := (bufs - {src})[dest := b];
    }

    // pktbuf_set_cont: the byte string stays, and its first `size` bytes lie in one block.
    method SetCont(k: int, size: nat) returns (ret: int)
      requires Valid() && k in bufs && (size <= bufs[k].total ==> bufs[k].blks != [])
      modifies `bufs
      ensures Valid() && k in bufs && bufs == old(bufs)[k := bufs[k]] && Flat(bufs[k].blks) == Flat(old(bufs)[k].blks)
      ensures ret == if size > old(bufs)[k].total || size > BLK then -E_NET_SIZE else NET_OK
      ensures ret == NET_OK && size > 0 ==> bufs[k].blks != [] && bufs[k].blks[0].size >= size
    {
      hide Flat; hide Sum;
      var b;
      ret, b := PktBlocks.SetCont(bufs[k], size);
      SumTake(bufs, k);
      SumPut(bufs, k, b);
      bufs := bufs[k := b];
    }
  }

  // A contiguous header of 513 bytes for a buffer of 10 is refused, and 513 bytes too many stay counted.
  method RefusedHeaderHappens() returns (p: Pool, ret: int)
    ensures ret == -E_NET_SIZE && p.memSize == Sum(p.bufs) + 513
  {
    hide Flat; hide Sum;
    p := new Pool();
    SumNone(p.bufs);
    p.Alloc(1, 10);
    ghost var none: map<int, Buf> := map[];
    SumPut(none, 1, p.bufs[1]);
    assert p.bufs == none[1 := p.bufs[1]] && none - {1} == none;
    FlatNone(p.bufs[1].blks);
    ret := p.AddHeader(1, 513, true);
  }

  lemma SumNone(bufs: map<int, Buf>)
    requires bufs == map[]
    ensures Sum(bufs) == 0
  {
  }
}
